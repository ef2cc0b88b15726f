/**
 The CAD colour encoder of the drawing utilities: a CAD colour is either a
 true-colour (red, green, blue) tuple or an index into the CAD program's
 default colour table, and is rendered as a `#rrggbb` string.
 */
module Colors {
  import opened Results
  import opened HexFormat

  /** A 24-bit RGB value, as stored in the default colour table. */
  type Rgb24 = n: nat | n < 0x100_0000

  /** The two shapes a CAD colour arrives in. */
  datatype CadColor =
    | TrueColor(red: int, green: int, blue: int)
    | Indexed(index: int)

  /** Python's list subscript `s[i]`: negative indices count from the end,
      anything outside `-|s| .. |s|-1` raises. */
  function ListAt<T>(s: seq<T>, i: int): (r: Result<T>)
    ensures r.Success? <==> -|s| <= i < |s|
    ensures r.Success? && i >= 0 ==> r.value == s[i]
    ensures r.Success? && i < 0 ==> r.value == s[|s| + i]
  {
    if 0 <= i < |s| then Success(s[i])
    else if -|s| <= i < 0 then Success(s[|s| + i])
    else Failure(IndexOutOfRange)
  }

  /** The palette slot a valid Python index denotes. */
  function Slot(n: nat, i: int): (k: nat)
    requires -(n as int) <= i < n
    ensures k < n
  {
    if i < 0 then n + i else i
  }

  /** `cad2hex`: a true colour becomes `#` and three lower-case `{:02x}` fields;
      an index is looked up in `palette` (the default colour table) and becomes
      `#` and one upper-case `{:06X}` field. A bad index raises. */
  function Cad2Hex(color: CadColor, palette: seq<Rgb24>): (r: Result<string>)
    ensures color.TrueColor? ==> r.Success?
    ensures color.Indexed? ==> (r.Success? <==> -|palette| <= color.index < |palette|)
    ensures r.Failure? ==> r.error == IndexOutOfRange
    ensures r.Success? ==> |r.value| >= 4 && r.value[0] == '#'
  {
    match color
    case TrueColor(red, green, blue) =>
      Success("#" + FormatHex(red, 2, false) + FormatHex(green, 2, false) + FormatHex(blue, 2, false))
    case Indexed(i) =>
      match ListAt(palette, i)
      case Failure(e) => Failure(e)
      case Success(rgb24) => Success("#" + FormatHex(rgb24, 6, true))
  }

  /** Every hex-formatted field has at least one character. */
  lemma FormatNonEmpty(n: int, width: nat, upper: bool)
    ensures |FormatHex(n, width, upper)| >= 1
  {
  }

  /** A true colour with components in 0..255 is `#` followed by exactly six
      lower-case hex digits, and each pair of digits reads back as its component. */
  lemma TrueColorEncoding(red: int, green: int, blue: int, palette: seq<Rgb24>)
    requires 0 <= red < 256 && 0 <= green < 256 && 0 <= blue < 256
    ensures Cad2Hex(TrueColor(red, green, blue), palette).Success?
    ensures var s := Cad2Hex(TrueColor(red, green, blue), palette).value;
      && |s| == 7 && s[0] == '#'
      && AllDigits(s[1..], false)
      && (forall i :: 1 <= i < 7 ==> IsHexDigit(s[i]))
      && ParseHex(s[1..3]) == red && ParseHex(s[3..5]) == green && ParseHex(s[5..7]) == blue
  {
    assert Pow16(2) == 256;
    FormatFixedWidth(red, 2, false);
    FormatFixedWidth(green, 2, false);
    FormatFixedWidth(blue, 2, false);
    var s := Cad2Hex(TrueColor(red, green, blue), palette).value;
    assert s[1..3] == FormatHex(red, 2, false);
    assert s[3..5] == FormatHex(green, 2, false);
    assert s[5..7] == FormatHex(blue, 2, false);
  }

  /** An index inside the table is `#` followed by exactly six upper-case hex
      digits, which read back as the table entry. */
  lemma IndexedEncoding(index: int, palette: seq<Rgb24>)
    requires -|palette| <= index < |palette|
    ensures Cad2Hex(Indexed(index), palette).Success?
    ensures var s := Cad2Hex(Indexed(index), palette).value;
      && |s| == 7 && s[0] == '#'
      && AllDigits(s[1..], true)
      && (forall i :: 1 <= i < 7 ==> IsHexDigit(s[i]))
      && ParseHex(s[1..]) == palette[Slot(|palette|, index)]
  {
    var rgb24 := palette[Slot(|palette|, index)];
    assert Pow16(6) == 0x100_0000;
    FormatFixedWidth(rgb24, 6, true);
    var s := Cad2Hex(Indexed(index), palette).value;
    assert s[1..] == FormatHex(rgb24, 6, true);
  }

  /** Two in-range true colours with the same encoding are the same colour. */
  lemma TrueColorInjective(c: CadColor, d: CadColor, palette: seq<Rgb24>)
    requires c.TrueColor? && 0 <= c.red < 256 && 0 <= c.green < 256 && 0 <= c.blue < 256
    requires d.TrueColor? && 0 <= d.red < 256 && 0 <= d.green < 256 && 0 <= d.blue < 256
    requires Cad2Hex(c, palette) == Cad2Hex(d, palette)
    ensures c == d
  {
    TrueColorEncoding(c.red, c.green, c.blue, palette);
    TrueColorEncoding(d.red, d.green, d.blue, palette);
  }

  /** A component above 255 is not clipped: the field grows past two digits and
      the whole string past seven characters. */
  lemma TrueColorOverflow(red: int, green: int, blue: int, palette: seq<Rgb24>)
    requires red >= 256 || green >= 256 || blue >= 256
    ensures |Cad2Hex(TrueColor(red, green, blue), palette).value| > 7
  {
    assert Pow16(2) == 256;
    FormatNonEmpty(red, 2, false);
    FormatNonEmpty(green, 2, false);
    FormatNonEmpty(blue, 2, false);
    if red >= 256 { FormatOverflows(red, 2, false); }
    if green >= 256 { FormatOverflows(green, 2, false); }
    if blue >= 256 { FormatOverflows(blue, 2, false); }
  }

  /** A negative component is not rejected: `{:02x}` writes it with a minus
      sign, which then stands at the start of that component's field. */
  lemma TrueColorNegative(red: int, green: int, blue: int, palette: seq<Rgb24>)
    requires red < 0 || green < 0 || blue < 0
    ensures var s := Cad2Hex(TrueColor(red, green, blue), palette).value;
      var r, g, b := FormatHex(red, 2, false), FormatHex(green, 2, false), FormatHex(blue, 2, false);
      && s == "#" + r + g + b
      && (red < 0 ==> s[1] == '-')
      && (green < 0 ==> s[1 + |r|] == '-')
      && (blue < 0 ==> s[1 + |r| + |g|] == '-')
  {
    var r, g, b := FormatHex(red, 2, false), FormatHex(green, 2, false), FormatHex(blue, 2, false);
    var s := Cad2Hex(TrueColor(red, green, blue), palette).value;
    assert s == "#" + r + g + b;
    if red < 0 {
      FormatNegative(red, 2, false);
      assert s[1] == r[0];
    }
    if green < 0 {
      FormatNegative(green, 2, false);
      assert s[1 + |r|] == g[0];
    }
    if blue < 0 {
      FormatNegative(blue, 2, false);
      assert s[1 + |r| + |g|] == b[0];
    }
  }

  /** The two branches differ in letter case: white as a tuple is `#ffffff`,
      white from the table is `#FFFFFF`. */
  lemma WhiteInBothBranches(palette: seq<Rgb24>)
    requires |palette| > 7 && palette[7] == 0xFFFFFF
    ensures Cad2Hex(TrueColor(255, 255, 255), palette) == Success("#ffffff")
    ensures Cad2Hex(Indexed(7), palette) == Success("#FFFFFF")
    ensures Cad2Hex(TrueColor(255, 255, 255), palette) != Cad2Hex(Indexed(7), palette)
  {
    LowerWhite();
    UpperWhite();
    assert ListAt(palette, 7) == Success(0xFFFFFF);
  }

  lemma LowerWhite()
    ensures FormatHex(255, 2, false) == "ff"
    ensures "#" + FormatHex(255, 2, false) + FormatHex(255, 2, false) + FormatHex(255, 2, false) == "#ffffff"
  {
  }

  /** Unfolding the six digit steps keeps this proof small. */
  lemma UpperWhite()
    ensures FormatHex(0xFFFFFF, 6, true) == "FFFFFF"
    ensures "#" + FormatHex(0xFFFFFF, 6, true) == "#FFFFFF"
  {
    assert Digits(15, true) == "F";
    assert Digits(0xFF, true) == "FF";
    assert Digits(0xFFF, true) == "FFF";
    assert Digits(0xFFFF, true) == "FFFF";
    assert Digits(0xFFFFF, true) == "FFFFF";
    assert Digits(0xFFFFFF, true) == "FFFFFF";
  }
}
