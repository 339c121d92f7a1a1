/** The string pieces of python/KML_Build.py: the altitude-mode abbreviations
    (`altitude_modes`), the RRGGBB to KML aabbggrr colour conversion
    (`color`) and the post-pass of `kml_build` that un-escapes the XML
    entities inside CDATA sections of the serialized document. */
module Kml {
  import opened Errors
  import opened PyList
  import opened PyStr

  // ---------------------------------------------------------------------------
  // altitude_modes

  /** The altitude modes of OGC KML 2.2: `kml:altitudeModeEnumType` and the
      two sea-floor modes of the `gx` extension. */
  datatype AltitudeMode = Absolute | ClampToGround | ClampToSeaFloor | RelativeToGround | RelativeToSeaFloor

  /** The mode's name as written in a KML document. */
  function ModeName(m: AltitudeMode): string {
    match m
    case Absolute => "absolute"
    case ClampToGround => "clampToGround"
    case ClampToSeaFloor => "clampToSeaFloor"
    case RelativeToGround => "relativeToGround"
    case RelativeToSeaFloor => "relativeToSeaFloor"
  }

  /** The abbreviation callers pass for the mode. */
  function Abbreviation(m: AltitudeMode): string {
    match m
    case Absolute => "abs"
    case ClampToGround => "ctg"
    case ClampToSeaFloor => "ctsf"
    case RelativeToGround => "rtg"
    case RelativeToSeaFloor => "rtsf"
  }

  /** `altitude_modes(alt_mode)`: every abbreviation expands to its mode's
      name; anything else falls back to clampToGround. */
  function AltitudeModes(altMode: string): (r: string)
    ensures forall m :: altMode == Abbreviation(m) ==> r == ModeName(m)
    ensures (forall m :: altMode != Abbreviation(m)) ==> r == ModeName(ClampToGround)
  {
    if altMode == "abs" then assert altMode == Abbreviation(Absolute); "absolute"
    else if altMode == "ctg" then assert altMode == Abbreviation(ClampToGround); "clampToGround"
    else if altMode == "ctsf" then assert altMode == Abbreviation(ClampToSeaFloor); "clampToSeaFloor"
    else if altMode == "rtg" then assert altMode == Abbreviation(RelativeToGround); "relativeToGround"
    else if altMode == "rtsf" then assert altMode == Abbreviation(RelativeToSeaFloor); "relativeToSeaFloor"
    else "clampToGround"
  }

  /** Reading a mode name back. */
  function ParseMode(name: string): (r: Option<AltitudeMode>)
    ensures r.Some? ==> ModeName(r.value) == name
  {
    if name == "absolute" then Some(Absolute)
    else if name == "clampToGround" then Some(ClampToGround)
    else if name == "clampToSeaFloor" then Some(ClampToSeaFloor)
    else if name == "relativeToGround" then Some(RelativeToGround)
    else if name == "relativeToSeaFloor" then Some(RelativeToSeaFloor)
    else None
  }

  /** Whatever the input, the result is the name of one of the five modes,
      and reads back as that mode. */
  lemma AltitudeModesClosed(altMode: string)
    ensures ParseMode(AltitudeModes(altMode)).Some?
    ensures ModeName(ParseMode(AltitudeModes(altMode)).value) == AltitudeModes(altMode)
  {
  }

  /** Names and abbreviations both identify the mode. */
  lemma ModeNamesDistinct(m: AltitudeMode, n: AltitudeMode)
    ensures ModeName(m) == ModeName(n) ==> m == n
    ensures Abbreviation(m) == Abbreviation(n) ==> m == n
    ensures ParseMode(ModeName(m)) == Some(m)
  {
  }

  // ---------------------------------------------------------------------------
  // color

  /** `hex6[4:] + hex6[2:4] + hex6[:2]`: the RR GG BB channels in KML's
      BB GG RR order. */
  function Bgr(hex6: string): (r: string)
    ensures |hex6| == 6 ==> |r| == 6 && r[..2] == hex6[4..] && r[2..4] == hex6[2..4] && r[4..] == hex6[..2]
  {
    From(hex6, 4) + Slice(hex6, 2, 4) + Upto(hex6, 2)
  }

  /** `color(hex6_color, opacity)` given `alpha`, the value of
      `int(round(opacity / 100 * 255, 0))`: the alpha digits of `hex(alpha)`
      without padding, then blue, green, red, all lower-cased. */
  function Color(hex6: string, alpha: int): (r: string)
    ensures |r| == |HexTail(alpha)| + |Bgr(hex6)|
    ensures forall i :: 0 <= i < |r| ==> !('A' <= r[i] <= 'Z')
  {
    Lower(HexTail(alpha) + Bgr(hex6))
  }

  /** The channel swap undoes itself. */
  lemma BgrInvolution(hex6: string)
    requires |hex6| == 6
    ensures |Bgr(hex6)| == 6
    ensures Bgr(hex6) == hex6[4..] + hex6[2..4] + hex6[..2]
    ensures Bgr(Bgr(hex6)) == hex6
  {
    var x := Bgr(hex6);
    assert x == hex6[4..] + hex6[2..4] + hex6[..2];
    assert x[4..] == hex6[..2] && x[2..4] == hex6[2..4] && x[..2] == hex6[4..];
    assert hex6[..2] + hex6[2..4] + hex6[4..] == hex6;
  }

  /** For a six-digit colour and an alpha byte, the result ends with the
      lower-cased blue, green and red digits, after the unpadded alpha
      digits: eight characters from alpha 16 up, seven below. */
  lemma ColorLayout(hex6: string, alpha: int)
    requires |hex6| == 6 && 0 <= alpha < 256
    ensures var r := Color(hex6, alpha);
      && r == HexTail(alpha) + Lower(hex6[4..] + hex6[2..4] + hex6[..2])
      && (|r| == 8 <==> alpha >= 16)
      && (|r| == 7 <==> alpha < 16)
  {
    BgrInvolution(hex6);
    LowerAppend(HexTail(alpha), Bgr(hex6));
    LowerOfHex(alpha);
    HexLength(alpha);
  }

  /** The digits of `hex` are already lower case. */
  lemma LowerOfHex(n: nat)
    ensures Lower(HexTail(n)) == HexTail(n)
  {
    var h := HexTail(n);
    forall i | 0 <= i < |h| ensures LowerChar(h[i]) == h[i] {
      HexDigitLower(h[i]);
    }
  }

  /** No hexadecimal digit is an upper-case letter. */
  lemma HexDigitLower(c: char)
    requires c in HexDigits
    ensures LowerChar(c) == c
  {
    var k :| 0 <= k < |HexDigits| && HexDigits[k] == c;
    assert k < 10 || 10 <= k < 16;
  }

  /** Zero opacity gives a seven-character colour, which KML's
      `kml:colorType` (four bytes, eight hex digits) does not accept. */
  lemma ColorUnpaddedAlpha(hex6: string, alpha: int)
    requires hex6 == "FF0000" && alpha == 0
    ensures Color(hex6, alpha) == "00000ff"
    ensures |Color(hex6, alpha)| == 7
  {
    assert HexTail(alpha) == "0";
    BgrInvolution(hex6);
    var t := HexTail(alpha) + Bgr(hex6);
    assert t == "00000FF";
    LowerExample(t);
  }

  lemma LowerExample(t: string)
    requires t == "00000FF"
    ensures Lower(t) == "00000ff"
  {
    var r := Lower(t);
    forall i | 0 <= i < 7 ensures r[i] == "00000ff"[i] {
      assert i < 5 || i == 5 || i == 6;
    }
  }

  /** The alpha byte as two hex digits, zero-padded. */
  function AlphaByte(alpha: nat): (r: string)
    requires alpha < 256
    ensures |r| == 2
  {
    HexLength(alpha);
    if alpha < 16 then "0" + HexTail(alpha) else HexTail(alpha)
  }

  /** The colour as KML expects it: always aabbggrr. */
  function ColorPadded(hex6: string, alpha: nat): string
    requires alpha < 256
  {
    Lower(AlphaByte(alpha) + Bgr(hex6))
  }

  lemma ColorPaddedLayout(hex6: string, alpha: nat)
    requires |hex6| == 6 && alpha < 256
    ensures var r := ColorPadded(hex6, alpha);
      && |r| == 8
      && NumeralValue(HexDigits, r[..2]) == alpha
      && r[2..] == Lower(hex6[4..] + hex6[2..4] + hex6[..2])
      && (alpha >= 16 ==> r == Color(hex6, alpha))
  {
    BgrInvolution(hex6);
    var a := AlphaByte(alpha);
    LowerAppend(a, Bgr(hex6));
    LowerOfHex(alpha);
    HexLength(alpha);
    HexRoundTrip(alpha);
    var r := ColorPadded(hex6, alpha);
    if alpha < 16 {
      assert Lower("0" + HexTail(alpha)) == "0" + HexTail(alpha) by {
        LowerAppend("0", HexTail(alpha));
      }
      var h := HexTail(alpha);
      assert a[..1] == "0" && a[1] == h[0] && h == [h[0]];
      assert NumeralValue(HexDigits, "0") == 0 by {
        HexRoundTrip(0);
        assert HexTail(0) == "0";
      }
      assert a[..|a| - 1] == "0";
      assert NumeralValue(HexDigits, h) == DigitValue(HexDigits, h[0]) by {
        assert h[..0] == [];
      }
    }
    assert r[..2] == a;
  }

  // ---------------------------------------------------------------------------
  // The CDATA post-pass of kml_build

  /** How ElementTree writes `<![CDATA[` and `]]>` inside text. */
  const Open: string := "&lt;![CDATA["
  const Close: string := "]]&gt;"

  /** The five entity replacements, in the order the source applies them. */
  const Entities: seq<(string, string)> :=
    [("&lt;", "<"), ("&gt;", ">"), ("&amp;", "&"), ("&quot;", "\""), ("&apos;", "'")]

  /** Whether every pattern is non-empty and no longer than its replacement's
      source text. */
  predicate Shortening(pairs: seq<(string, string)>) {
    forall k :: 0 <= k < |pairs| ==> 0 < |pairs[k].0| && |pairs[k].1| <= |pairs[k].0|
  }

  /** The replacements applied one after the other, each to the previous
      one's result. */
  function ReplaceEach(t: string, pairs: seq<(string, string)>): string
    requires Shortening(pairs)
    decreases |pairs|
  {
    if pairs == [] then t
    else ReplaceEach(Replace(t, pairs[0].0, pairs[0].1), pairs[1..])
  }

  /** The un-escaping of one section's text. */
  function Unescape(t: string): string {
    ReplaceEach(t, Entities)
  }

  /** `s[:start] + unescape(s[start:end]) + s[end:]`, with Python's slice
      rules applying to whatever `start` and `end` are. */
  function Splice(s: string, start: int, end: int): string {
    Upto(s, start) + Unescape(Slice(s, start, end)) + From(s, end)
  }

  /** With bounds inside the text, the splice rewrites exactly `s[start:end]`. */
  lemma SpliceInRange(s: string, start: nat, end: nat)
    requires start <= end <= |s|
    ensures Splice(s, start, end) == s[..start] + Unescape(s[start..end]) + s[end..]
  {
    assert Upto(s, start) == s[..start];
    assert Slice(s, start, end) == s[start..end];
    assert From(s, end) == s[end..];
  }

  /** One pass of the replacement loop: the window from the first escaped
      opener to just past the first escaped closer — both searched from the
      start of the text — is un-escaped. */
  function CdataPass(s: string): (r: string)
    ensures var start, close := Find(s, Open, 0), Find(s, Close, 0);
      start != -1 && start <= close ==> |r| <= |s| && start <= |r| && r[..start] == s[..start]
  {
    PassAt(s, Find(s, Open, 0), Find(s, Close, 0))
  }

  /** The pass for an opener found at `start` and a closer found at `close`:
      with both inside the text in that order, exactly the span from the
      opener through the closer is rewritten, and it does not grow. */
  function PassAt(s: string, start: int, close: int): (r: string)
    ensures 0 <= start <= close && close + |Close| <= |s| ==>
      && r == s[..start] + Unescape(s[start..close + |Close|]) + s[close + |Close|..]
      && |r| <= |s| && start <= |r| && r[..start] == s[..start]
  {
    if 0 <= start <= close && close + |Close| <= |s| then
      SpliceInRange(s, start, close + |Close|);
      SectionRewriteShrinks(s, start, close + |Close|);
      Splice(s, start, close + |Close|)
    else
      Splice(s, start, close + |Close|)
  }

  /** The five replacements of one section, in the order the source
      applies them. */
  lemma UnescapeInOrder(t: string)
    ensures Unescape(t) ==
      Replace(Replace(Replace(Replace(Replace(t, "&lt;", "<"), "&gt;", ">"), "&amp;", "&"), "&quot;", "\""), "&apos;", "'")
  {
    var e := Entities;
    assert e[1..][1..][1..][1..][1..] == [];
  }

  /** When an escaped opener is found and the first escaped closer does not
      start before it, a pass un-escapes exactly the span from the opener
      through that closer; the text before and after it is kept. */
  lemma CdataPassFrame(s: string)
    requires Find(s, Open, 0) != -1 && Find(s, Open, 0) <= Find(s, Close, 0)
    ensures Find(s, Close, 0) + |Close| <= |s|
    ensures var start, end := Find(s, Open, 0), Find(s, Close, 0) + |Close|;
      CdataPass(s) == s[..start] + Unescape(s[start..end]) + s[end..]
  {
    assert StartsAt(s, Close, Find(s, Close, 0));
  }

  /** `n` passes. */
  function CdataPasses(s: string, n: nat): string
    decreases n
  {
    if n == 0 then s else CdataPass(CdataPasses(s, n - 1))
  }

  /** What the post-pass returns: as many passes as there were escaped
      openers in the serialized text to begin with. */
  function CdataUnescapeSpec(s: string): string {
    CdataPasses(s, |Occurrences(s, Open, 0)|)
  }

  /** The counting loop: repeated `find` from just after the last hit. */
  method CountCdata(s: string) returns (cdata: seq<nat>)
    ensures cdata == Occurrences(s, Open, 0)
  {
    var lastFound := -1;
    cdata := [];
    while true
      invariant -1 <= lastFound
      invariant cdata + Occurrences(s, Open, lastFound + 1) == Occurrences(s, Open, 0)
      decreases |s| - lastFound
    {
      OccurrencesNext(s, Open, cdata, lastFound + 1);
      var next := Find(s, Open, lastFound + 1);
      if next == -1 {
        break;
      }
      lastFound := next;
      cdata := cdata + [lastFound];
    }
  }

  /** The body of the replacement loop. */
  method UnescapeFirstSection(r: string) returns (r': string)
    ensures r' == CdataPass(r)
  {
    var start := Find(r, Open, 0);
    var end := Find(r, Close, 0) + |Close|;
    var str1 := Upto(r, start);
    var str2 := From(r, end);
    var substring := Slice(r, start, end);
    substring := Unescape(substring);
    r' := str1 + substring + str2;
  }

  /** The post-pass as the source runs it. */
  method CdataUnescape(s: string) returns (r: string)
    ensures r == CdataUnescapeSpec(s)
  {
    var cdata := CountCdata(s);
    var cdataCount := |cdata|;
    r := s;
    for x := 0 to cdataCount
      invariant r == CdataPasses(s, x)
    {
      r := UnescapeFirstSection(r);
    }
  }

  /** A document without an escaped opener comes back unchanged. */
  lemma CdataUnescapeNoSection(s: string)
    requires forall i :: !StartsAt(s, Open, i)
    ensures CdataUnescapeSpec(s) == s
  {
    OccurrencesSkip(s, Open, 0, |s| + 1);
    OccurrencesPastEnd(s, Open, |s| + 1);
  }

  /** A `]]&gt;` ahead of the first section (an escaped `]]>` in ordinary
      text) makes the pass splice the text before the section in twice and
      leave the section escaped. */
  lemma CdataCloseBeforeOpen(s: string)
    requires s == "]]&gt;x&lt;![CDATA[y]]&gt;"
    ensures CdataUnescapeSpec(s) == "]]&gt;xx&lt;![CDATA[y]]&gt;"
    ensures |CdataUnescapeSpec(s)| > |s|
  {
    OnePass(s);
    assert CdataPasses(s, 1) == CdataPass(CdataPasses(s, 0));
    ExamplePass(s);
    ExampleSplice(s);
  }

  /** The one pass over the example: the opener is at 7, the first closer at
      0, so `s[:7]` is followed by an empty window and then `s[6:]`. */
  lemma ExamplePass(s: string)
    requires s == "]]&gt;x&lt;![CDATA[y]]&gt;"
    ensures CdataPass(s) == s[..7] + s[6..]
  {
    OpenOnlyAtSeven(s);
    assert StartsAt(s, Close, 0);
    assert Find(s, Close, 0) == 0;
    assert Upto(s, 7) == s[..7];
    assert Slice(s, 7, 6) == [];
    assert Unescape([]) == [];
    assert From(s, 6) == s[6..];
    assert CdataPass(s) == s[..7] + [] + s[6..];
  }

  lemma ExampleSplice(s: string)
    requires s == "]]&gt;x&lt;![CDATA[y]]&gt;"
    ensures s[..7] + s[6..] == "]]&gt;xx&lt;![CDATA[y]]&gt;"
  {
    var t := "]]&gt;xx&lt;![CDATA[y]]&gt;";
    assert t[..7] == s[..7];
    assert t[7..] == s[6..];
    assert t == t[..7] + t[7..];
  }

  lemma NotAt(s: string, p: string, i: nat, k: nat)
    requires i + |p| <= |s| && k < |p| && s[i + k] != p[k]
    ensures !StartsAt(s, p, i)
  {
    assert s[i..i + |p|][k] == s[i + k];
  }

  /** In the example text the escaped opener occurs at position 7 only. */
  lemma OpenOnlyAtSeven(s: string)
    requires s == "]]&gt;x&lt;![CDATA[y]]&gt;"
    ensures forall i :: StartsAt(s, Open, i) <==> i == 7
    ensures Find(s, Open, 0) == 7
  {
    assert |s| == 26 && |Open| == 12;
    forall i: nat ensures StartsAt(s, Open, i) <==> i == 7 {
      if i == 7 {
        assert s[7..19] == Open;
      } else if i == 2 {
        assert s[3] == 'g' && Open[1] == 'l';
        NotAt(s, Open, 2, 1);
      } else if i + 12 <= 26 {
        assert i in {0, 1, 3, 4, 5, 6, 8, 9, 10, 11, 12, 13, 14};
        assert s[i] != '&' && Open[0] == '&';
        NotAt(s, Open, i, 0);
      }
    }
    assert StartsAt(s, Open, 7);
    FindFirst(s, Open, 0);
  }

  lemma OnePass(s: string)
    requires s == "]]&gt;x&lt;![CDATA[y]]&gt;"
    ensures Occurrences(s, Open, 0) == [7]
  {
    OpenOnlyAtSeven(s);
    OccurrencesSkip(s, Open, 0, 7);
    OccurrencesSkip(s, Open, 8, 27);
    OccurrencesPastEnd(s, Open, 27);
    assert Occurrences(s, Open, 7) == [7] + Occurrences(s, Open, 8);
  }

  /** The pass with the closer searched from the opener on, and nothing
      done when either is missing. */
  function CdataPassIntended(s: string): string {
    var start := Find(s, Open, 0);
    if start == -1 then s
    else
      var close := Find(s, Close, start);
      if close == -1 then s
      else s[..start] + Unescape(s[start..close + |Close|]) + s[close + |Close|..]
  }

  /** The intended pass only rewrites the section, which can only get
      shorter: nothing is ever spliced in twice. */
  lemma CdataPassIntendedShrinks(s: string)
    ensures |CdataPassIntended(s)| <= |s|
    ensures var start := Find(s, Open, 0);
      start != -1 ==> CdataPassIntended(s)[..start] == s[..start]
  {
    var start := Find(s, Open, 0);
    if start != -1 {
      var close := Find(s, Close, start);
      if close != -1 {
        assert StartsAt(s, Close, close);
        SectionRewriteShrinks(s, start, close + |Close|);
      }
    }
  }

  /** Un-escaping the window `s[start:end]` in place never lengthens the
      text and leaves what comes before the window alone. */
  lemma SectionRewriteShrinks(s: string, start: nat, end: nat)
    requires start <= end <= |s|
    ensures var r := s[..start] + Unescape(s[start..end]) + s[end..];
      |r| <= |s| && r[..start] == s[..start]
  {
    var a, u, b := s[..start], Unescape(s[start..end]), s[end..];
    UnescapeShrinks(s[start..end]);
    assert (a + u + b)[..start] == a;
  }

  lemma {:induction false} ReplaceEachShrinks(t: string, pairs: seq<(string, string)>)
    requires Shortening(pairs)
    ensures |ReplaceEach(t, pairs)| <= |t|
    decreases |pairs|
  {
    if pairs != [] {
      ReplaceShrinks(t, pairs[0].0, pairs[0].1);
      ReplaceEachShrinks(Replace(t, pairs[0].0, pairs[0].1), pairs[1..]);
    }
  }

  lemma UnescapeShrinks(t: string)
    ensures |Unescape(t)| <= |t|
  {
    ReplaceEachShrinks(t, Entities);
  }
}
