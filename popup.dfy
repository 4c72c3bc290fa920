/**
 * The logic of the popup's "capture at time" button: the timestamp the user
 * typed is trimmed, rejected when empty, split on ':' and read as MM:SS or
 * HH:MM:SS seconds, which go out in the capture request; when a screenshot
 * comes back it is saved as `screenshot_<timestamp with ':' turned into '_'>.png`.
 */
module Popup {
  import opened Wrappers
  import opened JsString
  import opened JsNumber

  const EmptyTimestampMessage := "Please enter a timestamp."
  const InvalidFormatMessage := "Invalid timestamp format. Use MM:SS or HH:MM:SS."
  const CaptureFailedMessage := "Could not capture screenshot. Ensure video is accessible."

  datatype ParseError =
    | EmptyTimestamp      // the trimmed input is empty
    | InvalidFormat       // the trimmed input has neither one nor two ':'
    | UncoercedComponent  // two or three parts, one of them not a decimal numeral

  /**
   * The seconds read from the parts of a non-empty timestamp: two parts are
   * minutes and seconds, three are hours, minutes and seconds, any other
   * number of parts is a malformed timestamp whatever the parts hold.
   */
  function FromParts(parts: seq<string>): (r: Result<nat, ParseError>)
    ensures r != Failure(EmptyTimestamp)
    ensures r == Failure(InvalidFormat) <==> |parts| != 2 && |parts| != 3
    ensures r.Success? && |parts| == 2 ==>
              ToNumber(parts[0]).Some? && ToNumber(parts[1]).Some?
              && r.value == ToNumber(parts[0]).value * 60 + ToNumber(parts[1]).value
    ensures r.Success? && |parts| == 3 ==>
              ToNumber(parts[0]).Some? && ToNumber(parts[1]).Some? && ToNumber(parts[2]).Some?
              && r.value == ToNumber(parts[0]).value * 3600 + ToNumber(parts[1]).value * 60
                            + ToNumber(parts[2]).value
    ensures r == Failure(UncoercedComponent) <==>
              || (|parts| == 2 && (ToNumber(parts[0]).None? || ToNumber(parts[1]).None?))
              || (|parts| == 3 && (ToNumber(parts[0]).None? || ToNumber(parts[1]).None?
                                   || ToNumber(parts[2]).None?))
  {
    if |parts| == 2 then
      var m, s := ToNumber(parts[0]), ToNumber(parts[1]);
      if m.Some? && s.Some? then Success(m.value * 60 + s.value)
      else Failure(UncoercedComponent)
    else if |parts| == 3 then
      var h, m, s := ToNumber(parts[0]), ToNumber(parts[1]), ToNumber(parts[2]);
      if h.Some? && m.Some? && s.Some? then Success(h.value * 3600 + m.value * 60 + s.value)
      else Failure(UncoercedComponent)
    else Failure(InvalidFormat)
  }

  /**
   * The seconds the handler computes from the text of the timestamp field.
   * Emptiness is decided on the trimmed text; whether the format is valid
   * depends only on how many ':' it holds.
   */
  function ParseTimestamp(raw: string): (r: Result<nat, ParseError>)
    ensures r == Failure(EmptyTimestamp) <==> Trim(raw) == []
    ensures r == Failure(InvalidFormat) <==>
              Trim(raw) != [] && Count(Trim(raw), ':') != 1 && Count(Trim(raw), ':') != 2
    ensures r.Success? || r == Failure(UncoercedComponent) ==>
              Count(Trim(raw), ':') == 1 || Count(Trim(raw), ':') == 2
  {
    var timestamp := Trim(raw);
    if timestamp == [] then Failure(EmptyTimestamp)
    else
      SplitCount(timestamp, ':');
      FromParts(Split(timestamp, ':'))
  }

  /** The timestamp counts as empty exactly when the field holds nothing but white space. */
  lemma EmptyWhenAllWhiteSpace(raw: string)
    ensures ParseTimestamp(raw) == Failure(EmptyTimestamp) <==>
              forall k :: 0 <= k < |raw| ==> IsWhiteSpace(raw[k])
  {
    TrimEmpty(raw);
  }

  /** Two non-empty timestamps with as many ':' are either both malformed or both not. */
  lemma ColonCountDecidesFormat(a: string, b: string)
    requires Trim(a) != [] && Trim(b) != []
    requires Count(Trim(a), ':') == Count(Trim(b), ':')
    ensures ParseTimestamp(a) == Failure(InvalidFormat) <==> ParseTimestamp(b) == Failure(InvalidFormat)
  {
  }

  /** The two parts of `m:s` are `m` and `s`. */
  lemma SplitTwo(m: string, s: string)
    requires ':' !in m && ':' !in s
    ensures Split(m + ":" + s, ':') == [m, s]
  {
    assert Join([m, s], ':') == m + ":" + s;
    SplitJoin([m, s], ':');
  }

  /** The three parts of `h:m:s` are `h`, `m` and `s`. */
  lemma SplitThree(h: string, m: string, s: string)
    requires ':' !in h && ':' !in m && ':' !in s
    ensures Split(h + ":" + m + ":" + s, ':') == [h, m, s]
  {
    var parts := [h, m, s];
    assert parts[1..] == [m, s];
    assert Join(parts[1..], ':') == m + ":" + s;
    assert Join(parts, ':') == h + ":" + m + ":" + s;
    SplitJoin(parts, ':');
  }

  /** `MM:SS` reads as minutes * 60 + seconds. */
  lemma MinutesSeconds(raw: string, m: string, s: string)
    requires Trim(raw) == m + ":" + s
    requires ':' !in m && ':' !in s
    ensures ToNumber(m).Some? && ToNumber(s).Some? ==>
              ParseTimestamp(raw) == Success(ToNumber(m).value * 60 + ToNumber(s).value)
    ensures ToNumber(m).None? || ToNumber(s).None? ==>
              ParseTimestamp(raw) == Failure(UncoercedComponent)
  {
    SplitTwo(m, s);
    assert ParseTimestamp(raw) == FromParts([m, s]);
  }

  /** `HH:MM:SS` reads as hours * 3600 + minutes * 60 + seconds. */
  lemma HoursMinutesSeconds(raw: string, h: string, m: string, s: string)
    requires Trim(raw) == h + ":" + m + ":" + s
    requires ':' !in h && ':' !in m && ':' !in s
    ensures ToNumber(h).Some? && ToNumber(m).Some? && ToNumber(s).Some? ==>
              ParseTimestamp(raw)
                == Success(ToNumber(h).value * 3600 + ToNumber(m).value * 60 + ToNumber(s).value)
    ensures ToNumber(h).None? || ToNumber(m).None? || ToNumber(s).None? ==>
              ParseTimestamp(raw) == Failure(UncoercedComponent)
  {
    SplitThree(h, m, s);
    assert ParseTimestamp(raw) == FromParts([h, m, s]);
  }

  /** A numeral holds no ':', has no white space at its ends and reads as its value. */
  lemma NumeralPart(s: string)
    requires s != [] && IsDecimal(s)
    ensures ':' !in s
    ensures !IsWhiteSpace(s[0]) && !IsWhiteSpace(s[|s| - 1])
    ensures ToNumber(s) == Some(DecimalValue(s))
  {
    DecimalIsTrimmed(s);
  }

  /** Two numerals `m:s` (leading zeros allowed) read as value(m) * 60 + value(s). */
  lemma NumeralMinutesSeconds(m: string, s: string, minutes: nat, seconds: nat)
    requires m != [] && IsDecimal(m) && s != [] && IsDecimal(s)
    requires DecimalValue(m) == minutes && DecimalValue(s) == seconds
    ensures ParseTimestamp(m + ":" + s) == Success(minutes * 60 + seconds)
  {
    NumeralPart(m);
    NumeralPart(s);
    var text := m + ":" + s;
    assert text[0] == m[0] && text[|text| - 1] == s[|s| - 1];
    MinutesSeconds(text, m, s);
  }

  /** Three numerals `h:m:s` read as value(h) * 3600 + value(m) * 60 + value(s). */
  lemma NumeralHoursMinutesSeconds(h: string, m: string, s: string, hours: nat, minutes: nat, seconds: nat)
    requires h != [] && IsDecimal(h) && m != [] && IsDecimal(m) && s != [] && IsDecimal(s)
    requires DecimalValue(h) == hours && DecimalValue(m) == minutes && DecimalValue(s) == seconds
    ensures ParseTimestamp(h + ":" + m + ":" + s) == Success(hours * 3600 + minutes * 60 + seconds)
  {
    NumeralPart(h);
    NumeralPart(m);
    NumeralPart(s);
    var text := h + ":" + m + ":" + s;
    assert text[0] == h[0] && text[|text| - 1] == s[|s| - 1];
    HoursMinutesSeconds(text, h, m, s);
  }

  /** Every pair of naturals written as `M:S` parses back to M * 60 + S. */
  lemma MinutesSecondsRoundTrip(minutes: nat, seconds: nat)
    ensures ParseTimestamp(Decimal(minutes) + ":" + Decimal(seconds)) == Success(minutes * 60 + seconds)
  {
    NumeralMinutesSeconds(Decimal(minutes), Decimal(seconds), minutes, seconds);
  }

  /** Every triple of naturals written as `H:M:S` parses back to H * 3600 + M * 60 + S. */
  lemma HoursMinutesSecondsRoundTrip(hours: nat, minutes: nat, seconds: nat)
    ensures ParseTimestamp(Decimal(hours) + ":" + Decimal(minutes) + ":" + Decimal(seconds))
              == Success(hours * 3600 + minutes * 60 + seconds)
  {
    NumeralHoursMinutesSeconds(Decimal(hours), Decimal(minutes), Decimal(seconds), hours, minutes, seconds);
  }

  /** What pressing the button leads to, before any reply arrives. */
  datatype Reaction =
    | ShowError(message: string)  // shown in the popup; no request is sent
    | SendCapture(time: nat)      // the capture request goes out with this many seconds
    | SendUncoercedCapture        // a request goes out whose time JavaScript coerced from a non-numeral

  /**
   * The click handler up to the capture request: the empty and the malformed
   * timestamp end with their messages, a parsed one sends exactly its seconds.
   */
  function CaptureAtTimeClicked(raw: string): (r: Reaction)
    ensures r == ShowError(EmptyTimestampMessage) <==> Trim(raw) == []
    ensures r == ShowError(InvalidFormatMessage) <==>
              Trim(raw) != [] && Count(Trim(raw), ':') != 1 && Count(Trim(raw), ':') != 2
    ensures r.ShowError? ==> r.message == EmptyTimestampMessage || r.message == InvalidFormatMessage
    ensures r.SendCapture? <==> ParseTimestamp(raw).Success?
    ensures r.SendCapture? ==> r.time == ParseTimestamp(raw).value
    ensures r == SendUncoercedCapture <==> ParseTimestamp(raw) == Failure(UncoercedComponent)
  {
    match ParseTimestamp(raw)
    case Success(seconds) => SendCapture(seconds)
    case Failure(EmptyTimestamp) => ShowError(EmptyTimestampMessage)
    case Failure(InvalidFormat) => ShowError(InvalidFormatMessage)
    case Failure(UncoercedComponent) => SendUncoercedCapture
  }

  /** The timestamp made safe for a file name: every ':' becomes '_'. */
  function Sanitise(timestamp: string): (safe: string)
    ensures |safe| == |timestamp|
    ensures ':' !in safe
    ensures forall i :: 0 <= i < |timestamp| && timestamp[i] != ':' ==> safe[i] == timestamp[i]
    ensures forall i :: 0 <= i < |timestamp| && timestamp[i] == ':' ==> safe[i] == '_'
  {
    var safe := ReplaceAll(timestamp, ':', '_');
    assert forall i :: 0 <= i < |safe| ==> safe[i] != ':';
    safe
  }

  /** Sanitising a label again changes nothing. */
  lemma SanitiseIdempotent(timestamp: string)
    ensures Sanitise(Sanitise(timestamp)) == Sanitise(timestamp)
  {
  }

  /** On timestamps without '_' the label loses nothing: distinct timestamps get distinct labels. */
  lemma SanitiseInjective(a: string, b: string)
    requires '_' !in a && '_' !in b
    requires Sanitise(a) == Sanitise(b)
    ensures a == b
  {
    forall i | 0 <= i < |a| ensures a[i] == b[i] {
      assert Sanitise(a)[i] == Sanitise(b)[i];
    }
  }

  /** The name the screenshot is saved under. */
  function DownloadName(timestamp: string): (name: string)
    ensures |name| == |timestamp| + 15
    ensures name[..11] == "screenshot_" && name[|name| - 4..] == ".png"
    ensures name[11..|name| - 4] == Sanitise(timestamp)
    ensures ':' !in name
  {
    "screenshot_" + Sanitise(timestamp) + ".png"
  }

  /** What the reply to the capture request leads to. */
  datatype Completion =
    | Download(href: string, fileName: string)  // the screenshot's data URL is saved under this name
    | ShowCaptureError(message: string)

  /**
   * The reply callback: a screenshot that is present and non-empty (truthy in
   * JavaScript) is downloaded under the name built from the trimmed timestamp;
   * anything else shows the capture failure message.
   */
  function CaptureResponded(timestamp: string, screenshot: Option<string>): (c: Completion)
    ensures c.Download? <==> screenshot.Some? && screenshot.value != []
    ensures c.Download? ==> c.href == screenshot.value && c.fileName == DownloadName(timestamp)
    ensures c.ShowCaptureError? ==> c.message == CaptureFailedMessage
  {
    match screenshot
    case Some(dataUrl) => if dataUrl != [] then Download(dataUrl, DownloadName(timestamp))
                          else ShowCaptureError(CaptureFailedMessage)
    case None => ShowCaptureError(CaptureFailedMessage)
  }

  /**
   * End to end: a timestamp that parses sends its seconds, and a screenshot
   * coming back is saved under a colon-free name built from the trimmed text.
   */
  lemma CaptureAtTimeSavesUnderLabel(raw: string, dataUrl: string)
    requires ParseTimestamp(raw).Success?
    requires dataUrl != []
    ensures CaptureAtTimeClicked(raw) == SendCapture(ParseTimestamp(raw).value)
    ensures CaptureResponded(Trim(raw), Some(dataUrl))
              == Download(dataUrl, "screenshot_" + Sanitise(Trim(raw)) + ".png")
  {
  }

  /** "1:23", the first example in the handler's comment, is 83 seconds. */
  lemma ExampleMinutesSeconds()
    ensures ParseTimestamp("1:23") == Success(83)
  {
    assert "1:23" == "1" + ":" + "23";
    assert DecimalValue("23") == 23 by { assert "23"[..1] == "2"; }
    NumeralMinutesSeconds("1", "23", 1, 23);
  }

  /** "01:23:45", the second example, is 5025 seconds, also with white space around it. */
  lemma ExampleHoursMinutesSeconds()
    ensures ParseTimestamp(" 01:23:45 ") == Success(5025)
  {
    var raw := " 01:23:45 ";
    assert TrimStart(raw) == raw[1..];
    assert TrimEnd(raw[1..]) == "01:23:45";
    assert "01:23:45" == "01" + ":" + "23" + ":" + "45";
    assert DecimalValue("01") == 1 by { assert "01"[..1] == "0"; }
    assert DecimalValue("23") == 23 by { assert "23"[..1] == "2"; }
    assert DecimalValue("45") == 45 by { assert "45"[..1] == "4"; }
    NumeralHoursMinutesSeconds("01", "23", "45", 1, 23, 45);
  }

  /** A missing seconds part reads as 0, as JavaScript's `Number("")` does: "1:" is 60 seconds. */
  lemma ExampleEmptySeconds()
    ensures ParseTimestamp("1:") == Success(60)
  {
    assert "1:" == "1" + ":" + "";
    assert Trim("1:") == "1:" by { assert "1:"[0] == '1' && "1:"[1] == ':'; }
    ToNumberOfWhiteSpace("");
    DecimalIsTrimmed("1");
    MinutesSeconds("1:", "1", "");
  }

  /** A field of blanks is the empty timestamp. */
  lemma ExampleBlank()
    ensures ParseTimestamp("   ") == Failure(EmptyTimestamp)
  {
    EmptyWhenAllWhiteSpace("   ");
  }

  /** A bare number, without any ':', is malformed. */
  lemma ExampleBareNumber()
    ensures ParseTimestamp("83") == Failure(InvalidFormat)
  {
    assert Trim("83") == "83" by { assert "83"[0] == '8' && "83"[1] == '3'; }
    assert Count("83", ':') == 0 by { assert "83"[1..] == "3"; }
  }

  /** Four parts are malformed. */
  lemma ExampleFourParts()
    ensures ParseTimestamp("1:2:3:4") == Failure(InvalidFormat)
  {
    var t := "1:2:3:4";
    assert Trim(t) == t by { assert t[0] == '1' && t[6] == '4'; }
    assert Count(t, ':') == 3 by {
      assert t[1..] == ":2:3:4" && t[2..] == "2:3:4" && t[3..] == ":3:4";
      assert t[4..] == "3:4" && t[5..] == ":4" && t[6..] == "4";
    }
  }

  /** "1:23" is saved as "screenshot_1_23.png". */
  lemma ExampleDownloadName()
    ensures DownloadName("1:23") == "screenshot_1_23.png"
  {
    assert Sanitise("1:23") == "1_23";
  }
}
