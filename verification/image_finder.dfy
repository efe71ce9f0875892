/** The colour search of image_finder.py: the hex-colour fields and their
    sanitiser, the checks `start_search` makes before searching, the filter
    that keeps the pictures holding the requested colours, and the orderings
    the result list offers. */
module ImageFinder {
  import opened Wrappers
  import opened Text
  import opened Imaging
  import opened Directory
  import opened StableSort
  import opened NaturalSort

  // ---------------------------------------------------------------------
  // Hex colours (`hex_to_rgb`)
  // ---------------------------------------------------------------------

  /** A colour as the tuple of Python ints the script builds. */
  datatype Rgb = Rgb(r: int, g: int, b: int)

  predicate InRange(c: Rgb) {
    0 <= c.r <= 255 && 0 <= c.g <= 255 && 0 <= c.b <= 255
  }

  predicate AllHex(s: string) {
    forall i :: 0 <= i < |s| ==> IsHexDigit(s[i])
  }

  /** Hex digits only, none of them lower-case: what the sanitiser produces. */
  predicate UpperHex(s: string) {
    forall i :: 0 <= i < |s| ==> IsHexDigit(s[i]) && !IsAsciiLower(s[i])
  }

  /** The value of a string of hex digits, most significant digit first. */
  function HexNumber(s: string): (n: nat)
    requires AllHex(s)
    ensures |s| <= 1 ==> n < 16
    ensures |s| <= 2 ==> n < 256
  {
    if |s| == 0 then 0 else 16 * HexNumber(s[..|s| - 1]) + HexValue(s[|s| - 1])
  }

  /** `int(s, 16)`, which raises on an empty string or a non-digit. */
  function ParseHex(s: string): (r: Option<nat>)
    ensures r.Some? <==> |s| > 0 && AllHex(s)
    ensures r.Some? ==> r.value == HexNumber(s)
  {
    if |s| > 0 && AllHex(s) then Some(HexNumber(s)) else None
  }

  /** `s.lstrip('#')`. */
  function StripHashes(s: string): (t: string)
    ensures |t| <= |s|
    ensures |t| > 0 ==> t[0] != '#'
    ensures t == s[|s| - |t|..]
  {
    if |s| > 0 && s[0] == '#' then StripHashes(s[1..]) else s
  }

  /** Only `#` characters are removed. */
  lemma {:induction false} StripHashesOnlyHashes(s: string)
    ensures forall i :: 0 <= i < |s| - |StripHashes(s)| ==> s[i] == '#'
  {
    if |s| > 0 && s[0] == '#' {
      StripHashesOnlyHashes(s[1..]);
      forall i | 0 < i < |s| - |StripHashes(s)|
        ensures s[i] == '#'
      {
        assert s[i] == s[1..][i - 1];
      }
    }
  }

  /** `s[i:j]` for `0 <= i <= j`: Python clips the bounds to the string. */
  function Slice(s: string, i: nat, j: nat): (t: string)
    requires i <= j
    ensures |t| <= j - i
  {
    if |s| <= i then "" else if |s| <= j then s[i..] else s[i..j]
  }

  /** The three two-digit slices of `h`, each read as a base-16 int. */
  function Components(h: string): (r: Option<Rgb>)
    ensures r.Some? ==> InRange(r.value)
  {
    var red, green, blue := ParseHex(Slice(h, 0, 2)), ParseHex(Slice(h, 2, 4)), ParseHex(Slice(h, 4, 6));
    if red.Some? && green.Some? && blue.Some? then Some(Rgb(red.value, green.value, blue.value)) else None
  }

  /** `hex_to_rgb(code)`: the components of what follows the leading `#`s.
      `None` is the `ValueError` `int` raises on an empty or non-hex slice. */
  function HexToRgb(code: string): (r: Option<Rgb>)
    ensures r.Some? ==> InRange(r.value)
  {
    Components(StripHashes(code))
  }

  lemma AllHexAppend(a: string, b: string)
    ensures AllHex(a + b) <==> AllHex(a) && AllHex(b)
  {
    if AllHex(a) && AllHex(b) {
      forall i | 0 <= i < |a + b|
        ensures IsHexDigit((a + b)[i])
      {
        if i >= |a| {
          assert (a + b)[i] == b[i - |a|];
        }
      }
    }
    if AllHex(a + b) {
      assert forall i :: 0 <= i < |a| ==> a[i] == (a + b)[i];
      assert forall i :: 0 <= i < |b| ==> b[i] == (a + b)[|a| + i];
    }
  }

  /** The first six characters are the three slices `hex_to_rgb` reads; the
      last of them is non-empty exactly when five characters are there. */
  lemma SliceParts(h: string)
    ensures Slice(h, 0, 6) == Slice(h, 0, 2) + Slice(h, 2, 4) + Slice(h, 4, 6)
    ensures |Slice(h, 4, 6)| > 0 <==> |h| >= 5
    ensures |h| >= 5 ==> |Slice(h, 0, 2)| > 0 && |Slice(h, 2, 4)| > 0
  {
    if |h| >= 6 {
      assert h[..6] == h[0..2] + h[2..4] + h[4..6];
    } else if |h| >= 4 {
      assert h[0..] == h[0..2] + h[2..4] + h[4..];
    } else if |h| >= 2 {
      assert h[0..] == h[0..2] + h[2..];
    }
  }

  /** A colour parses exactly when at least five characters remain after the
      `#`s and the first six of them are hex digits. */
  lemma HexToRgbDefined(code: string)
    ensures var h := StripHashes(code);
            HexToRgb(code).Some? <==> |h| >= 5 && AllHex(Slice(h, 0, 6))
  {
    var h := StripHashes(code);
    SliceParts(h);
    AllHexAppend(Slice(h, 0, 2), Slice(h, 2, 4));
    AllHexAppend(Slice(h, 0, 2) + Slice(h, 2, 4), Slice(h, 4, 6));
  }

  /** Two hex digits read as `16 * first + second`. */
  lemma ParseHexPair(a: char, b: char)
    requires IsHexDigit(a) && IsHexDigit(b)
    ensures ParseHex([a, b]) == Some(16 * HexValue(a) + HexValue(b))
  {
    var s := [a, b];
    assert AllHex(s);
    assert s[..1] == [a] && [a][..0] == [];
    assert HexNumber([a]) == HexValue(a);
    assert HexNumber(s) == 16 * HexNumber([a]) + HexValue(b);
  }

  lemma ComponentsDigits(h: string)
    requires |h| == 6 && AllHex(h)
    ensures Components(h) == Some(Rgb(16 * HexValue(h[0]) + HexValue(h[1]),
                                      16 * HexValue(h[2]) + HexValue(h[3]),
                                      16 * HexValue(h[4]) + HexValue(h[5])))
  {
    assert Slice(h, 0, 2) == [h[0], h[1]];
    assert Slice(h, 2, 4) == [h[2], h[3]];
    assert Slice(h, 4, 6) == [h[4], h[5]];
    ParseHexPair(h[0], h[1]);
    ParseHexPair(h[2], h[3]);
    ParseHexPair(h[4], h[5]);
  }

  /** For six hex digits each component is 16·d[2i] + d[2i+1]. */
  lemma HexToRgbDigits(code: string)
    requires var h := StripHashes(code); |h| == 6 && AllHex(h)
    ensures var h := StripHashes(code);
            HexToRgb(code) == Some(Rgb(16 * HexValue(h[0]) + HexValue(h[1]),
                                       16 * HexValue(h[2]) + HexValue(h[3]),
                                       16 * HexValue(h[4]) + HexValue(h[5])))
  {
    ComponentsDigits(StripHashes(code));
  }

  /** Two upper-case hex digits for a byte value. */
  function ByteHex(v: int): (s: string)
    requires 0 <= v <= 255
    ensures |s| == 2 && UpperHex(s)
  {
    [HexDigitOf(v / 16), HexDigitOf(v % 16)]
  }

  /** The six-digit form of a colour, as the colour chooser fills the field
      and as the preview swatch names it without its `#`. */
  function RgbToHex(c: Rgb): (s: string)
    requires InRange(c)
    ensures |s| == 6 && UpperHex(s)
  {
    ByteHex(c.r) + ByteHex(c.g) + ByteHex(c.b)
  }

  lemma ByteHexValue(v: int)
    requires 0 <= v <= 255
    ensures 16 * HexValue(ByteHex(v)[0]) + HexValue(ByteHex(v)[1]) == v
  {
  }

  /** Writing a colour out and reading it back gives the colour. */
  lemma RgbHexRoundTrip(c: Rgb)
    requires InRange(c)
    ensures HexToRgb(RgbToHex(c)) == Some(c)
  {
    var s := RgbToHex(c);
    assert StripHashes(s) == s;
    HexToRgbDigits(s);
    ByteHexValue(c.r);
    ByteHexValue(c.g);
    ByteHexValue(c.b);
  }

  lemma ByteHexOfDigits(a: char, b: char)
    requires IsHexDigit(a) && !IsAsciiLower(a) && IsHexDigit(b) && !IsAsciiLower(b)
    ensures ByteHex(16 * HexValue(a) + HexValue(b)) == [a, b]
  {
    var v := 16 * HexValue(a) + HexValue(b);
    assert v / 16 == HexValue(a) && v % 16 == HexValue(b);
    HexDigitOfValue(a);
    HexDigitOfValue(b);
  }

  /** Sanitised text has no `#` to strip, with or without the one the
      swatch adds. */
  lemma StripHashesUpperHex(t: string)
    requires UpperHex(t)
    ensures StripHashes(t) == t && StripHashes("#" + t) == t
  {
    assert ("#" + t)[1..] == t;
  }

  lemma SixChars(s: string)
    requires |s| == 6
    ensures s == [s[0], s[1]] + [s[2], s[3]] + [s[4], s[5]]
  {
  }

  lemma ComponentsText(s: string)
    requires |s| == 6 && UpperHex(s)
    ensures Components(s).Some? && RgbToHex(Components(s).value) == s
  {
    ComponentsDigits(s);
    var c := Components(s).value;
    assert ByteHex(c.r) == [s[0], s[1]] by { ByteHexOfDigits(s[0], s[1]); }
    assert ByteHex(c.g) == [s[2], s[3]] by { ByteHexOfDigits(s[2], s[3]); }
    assert ByteHex(c.b) == [s[4], s[5]] by { ByteHexOfDigits(s[4], s[5]); }
    SixChars(s);
  }

  /** Reading six upper-case hex digits and writing the colour back gives
      the same text. */
  lemma HexRgbRoundTrip(s: string)
    requires |s| == 6 && UpperHex(s)
    ensures HexToRgb(s).Some? && RgbToHex(HexToRgb(s).value) == s
  {
    StripHashesUpperHex(s);
    ComponentsText(s);
  }

  // ---------------------------------------------------------------------
  // The colour fields (`_format_and_update`)
  // ---------------------------------------------------------------------

  /** `re.sub(r'[^0-9a-fA-F]', '', s)`: the hex digits of `s`, in order. */
  function KeepHex(s: string): (t: string)
    ensures AllHex(t) && |t| <= |s|
    ensures |s| == 1 ==> t == if IsHexDigit(s[0]) then s else ""
  {
    if |s| == 0 then ""
    else (if IsHexDigit(s[0]) then [s[0]] else "") + KeepHex(s[1..])
  }

  /** `re.sub(r'[^0-9a-fA-F]', '', s).upper()[:6]`. */
  function Sanitise(s: string): (t: string)
    ensures |t| <= 6 && UpperHex(t)
    ensures |t| == if |KeepHex(s)| <= 6 then |KeepHex(s)| else 6
    ensures forall i :: 0 <= i < |t| ==> t[i] == UpperChar(KeepHex(s)[i])
  {
    var u := Upper(KeepHex(s));
    if |u| <= 6 then u else u[..6]
  }

  lemma {:induction false} KeepHexAppend(s: string, t: string)
    ensures KeepHex(s + t) == KeepHex(s) + KeepHex(t)
  {
    if |s| == 0 {
      assert s + t == t;
    } else {
      assert (s + t)[0] == s[0] && (s + t)[1..] == s[1..] + t;
      KeepHexAppend(s[1..], t);
    }
  }

  lemma {:induction false} KeepHexOfHex(s: string)
    requires AllHex(s)
    ensures KeepHex(s) == s
  {
    if |s| > 0 {
      KeepHexOfHex(s[1..]);
      assert s == [s[0]] + s[1..];
    }
  }

  /** Lower-case digits are kept and upper-cased, and everything else is
      dropped. */
  lemma SanitiseExample()
    ensures Sanitise("#a-b") == "AB"
  {
    assert "#a-b"[1..] == "a-b" && "a-b"[1..] == "-b" && "-b"[1..] == "b" && "b"[1..] == "";
    assert KeepHex("b") == "b";
    assert KeepHex("-b") == "b";
    assert KeepHex("a-b") == "ab";
    assert KeepHex("#a-b") == "ab";
  }

  /** Text the sanitiser leaves alone is exactly text it could have produced:
      at most six digits, none lower-case. */
  lemma SanitiseFixpoint(s: string)
    ensures Sanitise(s) == s <==> |s| <= 6 && UpperHex(s)
  {
    if |s| <= 6 && UpperHex(s) {
      KeepHexOfHex(s);
      assert Upper(s) == s;
    }
  }

  /** Sanitising a sanitised value changes nothing, so the field's own write
      back does not alter it again. */
  lemma SanitiseIdempotent(s: string)
    ensures Sanitise(Sanitise(s)) == Sanitise(s)
  {
    SanitiseFixpoint(Sanitise(s));
  }

  /** Typing more text never changes the digits already accepted, and once
      six digits are in, further typing is ignored. */
  lemma SanitiseAppend(s: string, t: string)
    ensures |Sanitise(s)| <= |Sanitise(s + t)|
    ensures Sanitise(s + t)[..|Sanitise(s)|] == Sanitise(s)
    ensures |Sanitise(s)| == 6 ==> Sanitise(s + t) == Sanitise(s)
  {
    KeepHexAppend(s, t);
    var a, b := KeepHex(s), KeepHex(t);
    var ua, uab := Upper(a), Upper(a + b);
    assert uab[..|ua|] == ua;
  }

  /** A colour field after an edit: its text and the swatch colour, `None`
      being the window background. */
  datatype Field = Field(text: string, swatch: Option<string>)

  /** `_format_and_update`: the field holds the sanitised text, and the
      swatch shows it once it has all six digits. */
  function FormatAndUpdate(current: string): (f: Field)
    ensures f.text == Sanitise(current)
    ensures f.swatch.Some? <==> |f.text| == 6
    ensures f.swatch.Some? ==> f.swatch.value == "#" + f.text
  {
    var sanitised := Sanitise(current);
    Field(sanitised, if |sanitised| == 6 then Some("#" + sanitised) else None)
  }

  /** Editing an already formatted field again changes nothing. */
  lemma FormatStable(current: string)
    ensures FormatAndUpdate(FormatAndUpdate(current).text) == FormatAndUpdate(current)
  {
    SanitiseIdempotent(current);
  }

  /** Whatever the swatch shows is a colour `hex_to_rgb` reads, and the
      colour's own six-digit form is the field's text. */
  lemma SwatchIsColour(current: string)
    requires FormatAndUpdate(current).swatch.Some?
    ensures var f := FormatAndUpdate(current);
            HexToRgb(f.swatch.value).Some? && RgbToHex(HexToRgb(f.swatch.value).value) == f.text
  {
    var t := FormatAndUpdate(current).text;
    StripHashesUpperHex(t);
    ComponentsText(t);
  }

  // ---------------------------------------------------------------------
  // Starting a search (`start_search`)
  // ---------------------------------------------------------------------

  /** A search request that passed the checks. */
  datatype Query = Query(folder: string, primary: Rgb, secondary: Option<Rgb>)

  /** Why a search does not start: no folder chosen, a colour of the wrong
      length (the message box), or a six-character colour that `hex_to_rgb`
      cannot read (the uncaught `ValueError`). */
  datatype SearchError = NoFolder | BadPrimary(code: string) | BadSecondary(code: string) | Unreadable(code: string)

  /** The checks `start_search` makes, in its order: folder, primary length,
      primary parse, then the stripped secondary colour if there is one. */
  function StartSearch(folder: string, primary: string, secondary: string): (r: Result<Query, SearchError>)
    ensures r == Failure(NoFolder) <==> folder == ""
    ensures r == Failure(BadPrimary(primary)) <==> folder != "" && |primary| != 6
    ensures r.Success? ==> r.value.folder == folder && HexToRgb(primary) == Some(r.value.primary)
    ensures r.Success? ==> (r.value.secondary.None? <==> Strip(secondary) == "")
    ensures r.Success? && r.value.secondary.Some? ==> HexToRgb(Strip(secondary)) == r.value.secondary
    ensures r.Failure? && r.error.BadSecondary? ==>
              folder != "" && |primary| == 6 && HexToRgb(primary).Some? &&
              r.error.code == Strip(secondary) && |Strip(secondary)| !in {0, 6}
    ensures folder != "" && |primary| == 6 && HexToRgb(primary).Some? && |Strip(secondary)| !in {0, 6} ==>
              r == Failure(BadSecondary(Strip(secondary)))
    ensures folder != "" && |primary| == 6 && HexToRgb(primary).None? ==> r == Failure(Unreadable(primary))
    ensures folder != "" && |primary| == 6 && HexToRgb(primary).Some? &&
            |Strip(secondary)| == 6 && HexToRgb(Strip(secondary)).None? ==>
              r == Failure(Unreadable(Strip(secondary)))
    ensures r.Success? <==>
              folder != "" && |primary| == 6 && HexToRgb(primary).Some? &&
              (Strip(secondary) == "" || (|Strip(secondary)| == 6 && HexToRgb(Strip(secondary)).Some?))
  {
    if folder == "" then Failure(NoFolder)
    else if |primary| != 6 then Failure(BadPrimary(primary))
    else match HexToRgb(primary)
      case None => Failure(Unreadable(primary))
      case Some(rgb1) =>
        var code2 := Strip(secondary);
        if code2 == "" then Success(Query(folder, rgb1, None))
        else if |code2| != 6 then Failure(BadSecondary(code2))
        else match HexToRgb(code2)
          case None => Failure(Unreadable(code2))
          case Some(rgb2) => Success(Query(folder, rgb1, Some(rgb2)))
  }

  lemma StripUpperHex(s: string)
    requires UpperHex(s)
    ensures Strip(s) == s
  {
    if |s| > 0 {
      assert !IsSpace(s[0]) && !IsSpace(s[|s| - 1]);
    }
  }

  /** With both fields sanitised, as the window keeps them, the search starts
      exactly when a folder is chosen, the primary colour has six digits and
      the secondary colour has none or six. */
  lemma SanitisedSearchStarts(folder: string, primary: string, secondary: string)
    requires Sanitise(primary) == primary && Sanitise(secondary) == secondary
    ensures StartSearch(folder, primary, secondary).Success? <==>
              folder != "" && |primary| == 6 && (|secondary| == 0 || |secondary| == 6)
  {
    SanitiseFixpoint(primary);
    SanitiseFixpoint(secondary);
    StripUpperHex(secondary);
    if |primary| == 6 {
      HexRgbRoundTrip(primary);
    }
    if |secondary| == 6 {
      HexRgbRoundTrip(secondary);
    }
  }

  // ---------------------------------------------------------------------
  // The filter (`find_images_with_colors`)
  // ---------------------------------------------------------------------

  /** The extensions the search scans, compared in lower case. */
  const FinderSuffixes: seq<string> := [".png", ".jpg", ".jpeg", ".bmp", ".gif"]

  predicate IsScanned(name: string) {
    EndsWithAny(Lower(name), FinderSuffixes)
  }

  /** A pixel after `convert('RGB')`: its alpha is dropped. */
  function RgbOf(p: Pixel): (c: Rgb)
    ensures InRange(c)
  {
    Rgb(p.r as int, p.g as int, p.b as int)
  }

  /** `set(img_rgb.getdata())`: every colour that occurs in the picture. */
  function Colours(im: Image): set<Rgb> {
    set x: int, y: int | 0 <= x < im.width && 0 <= y < im.height :: RgbOf(im.At(x, y))
  }

  /** A found picture: its name, its area `width * height` and its size. */
  datatype Record = Record(name: string, area: nat, width: nat, height: nat)

  /** The entry is scanned, opens, holds the primary colour and, when one is
      given, the secondary colour. */
  predicate Matches(e: Entry, primary: Rgb, secondary: Option<Rgb>) {
    && IsScanned(e.name)
    && e.picture.Some?
    && primary in Colours(e.picture.value)
    && (secondary.None? || secondary.value in Colours(e.picture.value))
  }

  function RecordOf(e: Entry): (rec: Record)
    requires e.picture.Some?
    ensures rec.area == rec.width * rec.height
  {
    var im := e.picture.value;
    Record(e.name, im.width * im.height, im.width, im.height)
  }

  /** The results in directory order. */
  function FindImages(entries: seq<Entry>, primary: Rgb, secondary: Option<Rgb>): (found: seq<Record>)
    ensures |found| <= |entries|
    ensures forall i :: 0 <= i < |found| ==> found[i].area == found[i].width * found[i].height
  {
    if |entries| == 0 then []
    else
      (if Matches(entries[0], primary, secondary) then [RecordOf(entries[0])] else [])
      + FindImages(entries[1..], primary, secondary)
  }

  /** A record is in the results exactly when some entry matches and gives
      that record. */
  lemma {:induction false} FindImagesExact(entries: seq<Entry>, primary: Rgb, secondary: Option<Rgb>, rec: Record)
    ensures rec in FindImages(entries, primary, secondary) <==>
              exists i :: 0 <= i < |entries| && Matches(entries[i], primary, secondary) && RecordOf(entries[i]) == rec
  {
    if |entries| > 0 {
      FindImagesExact(entries[1..], primary, secondary, rec);
      var head := if Matches(entries[0], primary, secondary) then [RecordOf(entries[0])] else [];
      assert FindImages(entries, primary, secondary) == head + FindImages(entries[1..], primary, secondary);
      if exists i :: 1 <= i < |entries| && Matches(entries[i], primary, secondary) && RecordOf(entries[i]) == rec {
        var i :| 1 <= i < |entries| && Matches(entries[i], primary, secondary) && RecordOf(entries[i]) == rec;
        assert entries[1..][i - 1] == entries[i];
      }
      if exists i :: 0 <= i < |entries| - 1 && Matches(entries[1..][i], primary, secondary) && RecordOf(entries[1..][i]) == rec {
        var i :| 0 <= i < |entries| - 1 && Matches(entries[1..][i], primary, secondary) && RecordOf(entries[1..][i]) == rec;
        assert entries[i + 1] == entries[1..][i];
      }
    }
  }

  /** Without a secondary colour, a picture is found exactly when it is a
      scanned file that opens and holds the primary colour somewhere. */
  lemma PrimaryOnly(e: Entry, primary: Rgb)
    ensures Matches(e, primary, None) <==>
              IsScanned(e.name) && e.picture.Some? &&
              exists x, y :: 0 <= x < e.picture.value.width && 0 <= y < e.picture.value.height &&
                             RgbOf(e.picture.value.At(x, y)) == primary
  {
  }

  // ---------------------------------------------------------------------
  // Ordering the results (`on_sort_change`)
  // ---------------------------------------------------------------------

  const Alphabetical: string := "По алфавиту (А-Я)"
  const LargestFirst: string := "По размеру (сначала большие)"
  const SmallestFirst: string := "По размеру (сначала маленькие)"

  /** The options of the ordering menu, the first one preselected. */
  const SortOptions: seq<string> := [Alphabetical, LargestFirst, SmallestFirst]

  function AreaOf(rec: Record): nat { rec.area }

  /** The natural key of the file name (names stand for the base names of
      the joined paths). */
  function NameKey(rec: Record): seq<Chunk> { NaturalKey(rec.name) }

  function Larger(a: nat, b: nat): bool { a > b }

  function Smaller(a: nat, b: nat): bool { a < b }

  /** The option names which ordering applies. */
  datatype Ordering = BySizeDescending | BySizeAscending | ByName

  function OrderingOf(option: string): (r: Ordering)
    ensures r == ByName <==> !HasSubstring(option, LargestFirst) && !HasSubstring(option, SmallestFirst)
    ensures r == BySizeAscending ==> !HasSubstring(option, LargestFirst)
  {
    if HasSubstring(option, LargestFirst) then BySizeDescending
    else if HasSubstring(option, SmallestFirst) then BySizeAscending
    else ByName
  }

  /** Each menu option selects its own ordering: the smallest-first name does
      not contain the largest-first one, and the alphabetical name contains
      neither. */
  lemma OrderingOfOptions()
    ensures OrderingOf(SortOptions[0]) == ByName
    ensures OrderingOf(SortOptions[1]) == BySizeDescending
    ensures OrderingOf(SortOptions[2]) == BySizeAscending
  {
    assert OccursAt(LargestFirst, LargestFirst, 0);
    assert OccursAt(SmallestFirst, SmallestFirst, 0);
    forall i | 0 <= i <= |SmallestFirst|
      ensures !OccursAt(SmallestFirst, LargestFirst, i)
    {
      if i == 0 {
        assert SmallestFirst[20] != LargestFirst[20];
      } else if i <= |SmallestFirst| - |LargestFirst| {
        assert SmallestFirst[i] != LargestFirst[0];
      }
    }
  }

  /** `on_sort_change`: nothing to do on an empty list, otherwise a stable
      sort by area (descending or ascending) or by natural name key. */
  function OnSortChange(found: seq<Record>, option: string): (r: seq<Record>)
    ensures multiset(r) == multiset(found) && |r| == |found|
  {
    if |found| == 0 then found
    else match OrderingOf(option)
      case BySizeDescending => SortBy(found, AreaOf, Larger)
      case BySizeAscending => SortBy(found, AreaOf, Smaller)
      case ByName => SortBy(found, NameKey, KeyLess)
  }

  lemma LargerStrictTotal()
    ensures StrictTotal(Larger)
  {
  }

  lemma SmallerStrictTotal()
    ensures StrictTotal(Smaller)
  {
  }

  /** The result is in the order the option names. */
  lemma OnSortChangeOrdered(found: seq<Record>, option: string)
    ensures var r := OnSortChange(found, option);
            && (OrderingOf(option) == BySizeDescending ==> forall i, j :: 0 <= i < j < |r| ==> r[i].area >= r[j].area)
            && (OrderingOf(option) == BySizeAscending ==> forall i, j :: 0 <= i < j < |r| ==> r[i].area <= r[j].area)
            && (OrderingOf(option) == ByName ==> SortedBy(r, NameKey, KeyLess))
  {
    if |found| > 0 {
      match OrderingOf(option)
      case BySizeDescending =>
        LargerStrictTotal();
        SortBySorted(found, AreaOf, Larger);
      case BySizeAscending =>
        SmallerStrictTotal();
        SortBySorted(found, AreaOf, Smaller);
      case ByName =>
        KeyStrictTotal();
        SortBySorted(found, NameKey, KeyLess);
    }
  }

  /** Records with equal sort keys keep their relative order, as Python's
      sort guarantees (with `reverse=True` too). */
  lemma OnSortChangeStable(found: seq<Record>, option: string, area: nat, key: seq<Chunk>)
    ensures var r := OnSortChange(found, option);
            && (OrderingOf(option) != ByName ==> Having(r, AreaOf, area) == Having(found, AreaOf, area))
            && (OrderingOf(option) == ByName ==> Having(r, NameKey, key) == Having(found, NameKey, key))
  {
    if |found| > 0 {
      match OrderingOf(option)
      case BySizeDescending =>
        LargerStrictTotal();
        SortByStable(found, AreaOf, Larger, area);
      case BySizeAscending =>
        SmallerStrictTotal();
        SortByStable(found, AreaOf, Smaller, area);
      case ByName =>
        KeyStrictTotal();
        SortByStable(found, NameKey, KeyLess, key);
    }
  }

  /** Choosing the same ordering twice changes nothing the second time. */
  lemma OnSortChangeIdempotent(found: seq<Record>, option: string)
    ensures OnSortChange(OnSortChange(found, option), option) == OnSortChange(found, option)
  {
    var r := OnSortChange(found, option);
    if |found| > 0 {
      OnSortChangeOrdered(found, option);
      match OrderingOf(option)
      case BySizeDescending =>
        LargerStrictTotal();
        SortBySortedInput(r, AreaOf, Larger);
      case BySizeAscending =>
        SmallerStrictTotal();
        SortBySortedInput(r, AreaOf, Smaller);
      case ByName =>
        KeyStrictTotal();
        SortBySortedInput(r, NameKey, KeyLess);
    }
  }

  // ---------------------------------------------------------------------
  // The whole search
  // ---------------------------------------------------------------------

  /** `start_search` end to end: the checks, the scan of the chosen folder's
      listing, then the current ordering. An empty result is the "nothing
      found" message. */
  function Search(folder: string, primary: string, secondary: string, listing: seq<Entry>, option: string)
    : (r: Result<seq<Record>, SearchError>)
    ensures StartSearch(folder, primary, secondary).Failure? <==> r.Failure?
    ensures r.Success? ==>
              var q := StartSearch(folder, primary, secondary).value;
              multiset(r.value) == multiset(FindImages(listing, q.primary, q.secondary))
  {
    var q :- StartSearch(folder, primary, secondary);
    Success(OnSortChange(FindImages(listing, q.primary, q.secondary), option))
  }

  /** Every search result is a matching picture of the listing. */
  lemma SearchSound(folder: string, primary: string, secondary: string, listing: seq<Entry>, option: string, rec: Record)
    requires Search(folder, primary, secondary, listing, option).Success?
    requires rec in Search(folder, primary, secondary, listing, option).value
    ensures exists i :: 0 <= i < |listing| && RecordOf.requires(listing[i]) && RecordOf(listing[i]) == rec &&
                        Matches(listing[i], StartSearch(folder, primary, secondary).value.primary,
                                StartSearch(folder, primary, secondary).value.secondary)
  {
    var q := StartSearch(folder, primary, secondary).value;
    var found := FindImages(listing, q.primary, q.secondary);
    assert rec in multiset(found);
    FindImagesExact(listing, q.primary, q.secondary, rec);
  }
}
