/**
  * Web colour strings: webColorToPixel parses an optional '#' followed by hex
  * digits in the forms RGB, ARGB, RRGGBB or AARRGGBB; pixelToWebColor prints
  * RRGGBB, or AARRGGBB when alpha is not 255, with upper-case digits.
  */
module WebColor {
  import opened Pixel

  predicate IsHexDigit(c: char) {
    ('0' <= c <= '9') || ('a' <= c <= 'f') || ('A' <= c <= 'F')
  }

  predicate AllHex(s: string) {
    forall i :: 0 <= i < |s| ==> IsHexDigit(s[i])
  }

  function DigitValue(c: char): (v: nat)
    requires IsHexDigit(c)
    ensures v < 16
  {
    if '0' <= c <= '9' then c as int - '0' as int
    else if 'a' <= c <= 'f' then c as int - 'a' as int + 10
    else c as int - 'A' as int + 10
  }

  /** The digit "%X" prints for a nibble. */
  function HexChar(v: nat): (c: char)
    requires v < 16
    ensures IsHexDigit(c) && DigitValue(c) == v
  {
    if v < 10 then ('0' as int + v) as char else ('A' as int + v - 10) as char
  }

  /** Numeric value of a string of hex digits, most significant first. */
  function HexValue(s: string): nat
    requires AllHex(s)
  {
    if s == [] then 0 else HexValue(s[..|s| - 1]) * 16 + DigitValue(s[|s| - 1])
  }

  /** Length of the run of hex digits at the start of s: what sscanf's "%x" consumes. */
  function LeadingHexRun(s: string): (n: nat)
    ensures n <= |s| && AllHex(s[..n])
    ensures n < |s| ==> !IsHexDigit(s[n])
  {
    if s == [] || !IsHexDigit(s[0]) then 0
    else
      var k := LeadingHexRun(s[1..]);
      assert s[..k + 1] == [s[0]] + s[1..][..k];
      1 + k
  }

  /** "%02X" of a byte. */
  function Hex2(v: byte): string {
    [HexChar(v / 16), HexChar(v % 16)]
  }

  /** pixelToWebColor: "%02X%02X%02X", preceded by the alpha byte when it is not 255. */
  function PixelToWebColor(p: PixelColor): (r: string)
    ensures AllHex(r) && |r| == if p.a == 255 then 6 else 8
  {
    (if p.a != 255 then Hex2(p.a) else "") + Hex2(p.r) + Hex2(p.g) + Hex2(p.b)
  }

  /** A short-form nibble duplicated into a byte: x | x<<4. */
  function Dup(nibble: nat): byte
    requires nibble < 16
  {
    nibble * 16 + nibble
  }

  /**
    * webColorToPixel. n counts every character after the optional '#', not
    * only the digits; h is the value of the leading digit run as a uint32_t.
    * Without any leading digit sscanf fails and the result is transparent.
    */
  function WebColorToPixel(s: string): (r: PixelColor)
    ensures var body := if |s| > 0 && s[0] == '#' then s[1..] else s;
            r.a != 255 ==> r == Transparent || |body| == 4 || |body| == 8
  {
    var body := if |s| > 0 && s[0] == '#' then s[1..] else s;
    var k := LeadingHexRun(body);
    if k == 0 then Transparent
    else
      var h := HexValue(body[..k]) % 0x1_0000_0000;
      if |body| <= 4 then ShortForm(h, |body|) else LongForm(h, |body|)
  }

  /** RGB or ARGB: one nibble per channel, each duplicated; alpha only when n == 4. */
  function ShortForm(h: nat, n: nat): PixelColor {
    PixelColor(Dup((h / 0x100) % 0x10), Dup((h / 0x10) % 0x10), Dup(h % 0x10),
               if n == 4 then Dup((h / 0x1000) % 0x10) else 255)
  }

  /** RRGGBB or AARRGGBB: one byte per channel; alpha only when n == 8. */
  function LongForm(h: nat, n: nat): PixelColor {
    PixelColor((h / 0x1_0000) % 0x100, (h / 0x100) % 0x100, h % 0x100,
               if n == 8 then (h / 0x100_0000) % 0x100 else 255)
  }

  // ----- lemmas -----

  /** Appending a printed byte shifts the value by eight bits and adds the byte. */
  lemma {:induction false} HexValueAppendByte(s: string, v: byte)
    requires AllHex(s)
    ensures AllHex(s + Hex2(v))
    ensures HexValue(s + Hex2(v)) == HexValue(s) * 256 + v
  {
    var t := s + Hex2(v);
    assert t[..|t| - 1] == s + [HexChar(v / 16)];
    assert (s + [HexChar(v / 16)])[..|s|] == s;
    calc {
      HexValue(t);
      HexValue(s + [HexChar(v / 16)]) * 16 + v % 16;
      (HexValue(s) * 16 + v / 16) * 16 + v % 16;
      HexValue(s) * 256 + v;
    }
  }

  lemma DivModOf(q: nat, r: nat, d: nat)
    requires 0 < d && r < d
    ensures (q * d + r) / d == q && (q * d + r) % d == r
  {
    var x := q * d + r;
    var q', r' := x / d, x % d;
    assert x == q' * d + r';
    assert (q - q') * d == r' - r;
    if q > q' {
      MulLeftMono(1, q - q', d);
    } else if q < q' {
      MulLeftMono(1, q' - q, d);
    }
  }

  /** The printed form reads back as the number a<<24 | r<<16 | g<<8 | b (alpha part only when present). */
  lemma PrintedValue(p: PixelColor)
    ensures AllHex(PixelToWebColor(p))
    ensures HexValue(PixelToWebColor(p)) ==
      (if p.a != 255 then p.a * 0x100_0000 else 0) + p.r * 0x1_0000 + p.g * 0x100 + p.b
  {
    var head := if p.a != 255 then Hex2(p.a) else "";
    assert head == "" + head;
    HexValueAppendByte("", p.a);
    assert HexValue(head) == if p.a != 255 then p.a else 0;
    HexValueAppendByte(head, p.r);
    HexValueAppendByte(head + Hex2(p.r), p.g);
    HexValueAppendByte(head + Hex2(p.r) + Hex2(p.g), p.b);
  }

  /** The long form takes apart a number built from four bytes. */
  lemma LongFormFields(a: byte, r: byte, g: byte, b: byte, n: nat)
    ensures LongForm(a * 0x100_0000 + r * 0x1_0000 + g * 0x100 + b, n)
         == PixelColor(r, g, b, if n == 8 then a else 255)
  {
    var h := a * 0x100_0000 + r * 0x1_0000 + g * 0x100 + b;
    DivModOf(a * 0x1_0000 + r * 0x100 + g, b, 0x100);
    assert h / 0x100 == a * 0x1_0000 + r * 0x100 + g;
    DivModOf(a * 0x100 + r, g, 0x100);
    assert h == (a * 0x100 + r) * 0x1_0000 + (g * 0x100 + b);
    DivModOf(a * 0x100 + r, g * 0x100 + b, 0x1_0000);
    DivModOf(a, r, 0x100);
    DivModOf(a, r * 0x1_0000 + g * 0x100 + b, 0x100_0000);
    DivModOf(0, a, 0x100);
  }

  /** Printing then parsing gives back every pixel colour exactly. */
  lemma RoundTrip(p: PixelColor)
    ensures WebColorToPixel(PixelToWebColor(p)) == p
  {
    var s := PixelToWebColor(p);
    PrintedValue(p);
    assert s[0] == (if p.a != 255 then Hex2(p.a) else Hex2(p.r))[0];
    assert s[0] != '#';
    LeadingHexRunAll(s);
    assert s[..|s|] == s;
    var a := if p.a != 255 then p.a else 0;
    var h := HexValue(s);
    assert h == a * 0x100_0000 + p.r * 0x1_0000 + p.g * 0x100 + p.b;
    assert h % 0x1_0000_0000 == h;
    assert WebColorToPixel(s) == LongForm(h, |s|);
    LongFormFields(a, p.r, p.g, p.b, |s|);
  }

  /** A string with no hex digit after the optional '#' parses as transparent. */
  lemma UnparsableIsTransparent(s: string)
    requires var body := if |s| > 0 && s[0] == '#' then s[1..] else s;
             body == [] || !IsHexDigit(body[0])
    ensures WebColorToPixel(s) == Transparent
  {
  }

  /** "#RGB": each nibble duplicated, alpha opaque. */
  lemma ShortFormRGB(s: string)
    requires |s| == 4 && s[0] == '#' && AllHex(s[1..])
    ensures WebColorToPixel(s) ==
      PixelColor(Dup(DigitValue(s[1])), Dup(DigitValue(s[2])), Dup(DigitValue(s[3])), 255)
  {
    var body := s[1..];
    LeadingHexRunAll(body);
    assert body[..3] == body;
    var d0, d1, d2 := DigitValue(body[0]), DigitValue(body[1]), DigitValue(body[2]);
    assert body[..2] == [body[0], body[1]] && body[..2][..1] == [body[0]];
    assert HexValue([body[0]]) == d0 by { assert [body[0]][..0] == []; }
    var h := HexValue(body);
    assert HexValue(body[..2]) == HexValue(body[..2][..1]) * 16 + d1;
    assert h == HexValue(body[..2]) * 16 + d2;
    assert h == (d0 * 16 + d1) * 16 + d2;
    assert h % 0x1_0000_0000 == h;
    ShortFormFields(d0, d1, d2);
  }

  lemma ShortFormFields(d0: nat, d1: nat, d2: nat)
    requires d0 < 16 && d1 < 16 && d2 < 16
    ensures ShortForm((d0 * 16 + d1) * 16 + d2, 3) == PixelColor(Dup(d0), Dup(d1), Dup(d2), 255)
  {
    var h := (d0 * 16 + d1) * 16 + d2;
    DivModOf(d0 * 16 + d1, d2, 16);
    DivModOf(d0, d1, 16);
    assert h == d0 * 256 + (d1 * 16 + d2);
    DivModOf(d0, d1 * 16 + d2, 256);
    DivModOf(0, d0, 16);
  }

  /** With no alpha digits in the long form, alpha defaults to opaque. */
  lemma LongFormDefaultsOpaque(s: string)
    requires |s| == 6 && AllHex(s)
    ensures WebColorToPixel(s).a == 255
  {
    assert s[0] != '#';
  }

  lemma LeadingHexRunAll(s: string)
    requires AllHex(s)
    ensures LeadingHexRun(s) == |s|
  {
  }

  lemma ExampleShortRed()
    ensures WebColorToPixel("#F00") == PixelColor(255, 0, 0, 255)
  {
    ShortFormRGB("#F00");
  }

  lemma ExampleLongWithAlpha()
    ensures WebColorToPixel("#80FF0000") == PixelColor(255, 0, 0, 128)
  {
    var body := "80FF0000";
    assert "#80FF0000"[1..] == body;
    LeadingHexRunAll(body);
    assert body[..8] == body;
    var p := PixelColor(255, 0, 0, 128);
    assert Hex2(128) == "80" && Hex2(255) == "FF" && Hex2(0) == "00";
    assert PixelToWebColor(p) == "80" + "FF" + "00" + "00" == body;
    RoundTrip(p);
  }
}
