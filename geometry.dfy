/** `__set_geometry`: a 500 by 292 window, centred horizontally and then moved
    right by an eighth of the screen, a third of the spare height from the top;
    rendered as Tk's "WxH+X+Y" string. Python's `//` floors, and with the
    positive divisors used here so does Dafny's `/`. */
module Geometry {
  import opened Scan

  const WIDTH: int := 500
  const HEIGHT: int := 292

  datatype Placement = Placement(width: int, height: int, x: int, y: int)

  /** q is v divided by the positive d, rounded down (`v // d`) */
  predicate FloorOf(q: int, v: int, d: int) {
    d * q <= v < d * q + d
  }

  /** h is half the spare width and q an eighth of the screen width, each
      rounded down */
  predicate OffsetParts(h: int, q: int, screenWidth: int) {
    FloorOf(h, screenWidth - WIDTH, 2) && FloorOf(q, screenWidth, 8)
  }

  /** The window placement for a screen of the given size */
  function Place(screenWidth: int, screenHeight: int): (p: Placement)
    ensures p.width == WIDTH && p.height == HEIGHT
    // x is half the spare width, rounded down, plus an eighth of the screen
    // width, rounded down
    ensures exists h: int, q: int :: OffsetParts(h, q, screenWidth) && p.x == h + q
    // so x lies within 11/8 below (5w - 2000)/8
    ensures 5 * screenWidth - 4 * WIDTH - 11 <= 8 * p.x <= 5 * screenWidth - 4 * WIDTH
    // y is a third of the spare height, rounded down
    ensures FloorOf(p.y, screenHeight - HEIGHT, 3)
    ensures screenWidth >= WIDTH ==> p.x >= 0
    ensures screenHeight >= HEIGHT ==> 0 <= p.y && p.y + p.height <= screenHeight
    ensures screenWidth >= 665 ==> p.x + p.width <= screenWidth
  {
    var toRight := screenWidth / 8;
    var x := (screenWidth - WIDTH) / 2;
    var y := (screenHeight - HEIGHT) / 3;
    assert OffsetParts(x, toRight, screenWidth);
    Placement(WIDTH, HEIGHT, x + toRight, y)
  }

  /** The geometry string Tk receives: width, height and the two offsets in
      decimal, as "WxH+X+Y". Reading it back gives the placement. */
  function GeometryString(screenWidth: int, screenHeight: int): (g: string)
    ensures ParseGeometry(g) == Some(Place(screenWidth, screenHeight))
  {
    var p := Place(screenWidth, screenHeight);
    FieldsParse(p.width, p.height, p.x, p.y);
    Decimal(p.width) + "x" + Decimal(p.height) + "+" + Decimal(p.x) + "+" + Decimal(p.y)
  }

  function DigitChar(d: int): (c: char)
    requires 0 <= d < 10
    ensures IsDigit(c) && c as int - '0' as int == d
  {
    (d + '0' as int) as char
  }

  /** Python's `str(n)` for n >= 0: decimal digits without leading zeros */
  function NatDecimal(n: nat): (s: string)
    ensures |s| >= 1 && forall k :: 0 <= k < |s| ==> IsDigit(s[k])
    ensures s[0] == '0' ==> n == 0
    ensures |s| > 1 ==> s[0] != '0'
    decreases n
  {
    if n < 10 then [DigitChar(n)] else NatDecimal(n / 10) + [DigitChar(n % 10)]
  }

  /** An optionally signed, non-empty string of decimal digits */
  predicate IsDecimal(s: string) {
    |s| >= 1 && (s[0] == '-' ==> |s| >= 2)
    && forall k :: (if s[0] == '-' then 1 else 0) <= k < |s| ==> IsDigit(s[k])
  }

  /** Python's `str(n)`: a minus sign exactly for negative n, then the digits of
      |n| without leading zeros */
  function Decimal(n: int): (s: string)
    ensures IsDecimal(s)
    ensures s[0] == '-' <==> n < 0
    ensures var sign := if n < 0 then 1 else 0; |s| > sign + 1 ==> s[sign] != '0'
  {
    if n < 0 then "-" + NatDecimal(-n) else NatDecimal(n)
  }

  /** The number a string of decimal digits denotes */
  function DigitsValue(s: string): nat
    requires forall k :: 0 <= k < |s| ==> IsDigit(s[k])
    decreases |s|
  {
    if s == [] then 0
    else
      assert IsDigit(s[|s| - 1]);
      DigitsValue(s[..|s| - 1]) * 10 + (s[|s| - 1] as int - '0' as int)
  }

  /** The integer an optionally signed decimal denotes */
  function DecimalValue(s: string): int
    requires IsDecimal(s)
  {
    if s[0] == '-' then -(DigitsValue(s[1..]) as int) else DigitsValue(s)
  }

  lemma {:induction false} NatDecimalValue(n: nat)
    ensures DigitsValue(NatDecimal(n)) == n
    decreases n
  {
    var s := NatDecimal(n);
    if n >= 10 {
      NatDecimalValue(n / 10);
      assert s[..|s| - 1] == NatDecimal(n / 10);
    }
  }

  /** Reading back the decimal of n gives n. */
  lemma DecimalRoundTrip(n: int)
    ensures IsDecimal(Decimal(n))
    ensures DecimalValue(Decimal(n)) == n
  {
    if n < 0 {
      NatDecimalValue(-n);
      assert Decimal(n)[1..] == NatDecimal(-n);
    } else {
      NatDecimalValue(n);
    }
  }

  // ---------------------------------------------------------------------------
  // Reading a geometry string back

  /** The first position of c in s, or |s| when there is none */
  function IndexOf(s: string, c: char): (k: nat)
    ensures k <= |s| && (k < |s| ==> s[k] == c)
    ensures forall j :: 0 <= j < k ==> s[j] != c
    decreases |s|
  {
    if s == [] || s[0] == c then 0 else 1 + IndexOf(s[1..], c)
  }

  /** s split at its first c */
  function Cut(s: string, c: char): Option<(string, string)> {
    var k := IndexOf(s, c);
    if k == |s| then None else Some((s[..k], s[k + 1..]))
  }

  lemma CutJoin(a: string, c: char, b: string)
    requires c !in a
    ensures Cut(a + [c] + b, c) == Some((a, b))
  {
    var s := a + [c] + b;
    var k := IndexOf(s, c);
    assert s[|a|] == c;
    assert forall j :: 0 <= j < |a| ==> s[j] == a[j];
    assert s[..|a|] == a && s[|a| + 1..] == b;
  }

  function ParseInt(s: string): Option<int> {
    if IsDecimal(s) then Some(DecimalValue(s)) else None
  }

  /** Reads "WxH+X+Y" back into its four numbers */
  function ParseGeometry(g: string): Option<Placement> {
    match Cut(g, 'x')
    case None => None
    case Some((w, rest)) =>
      match Cut(rest, '+')
      case None => None
      case Some((h, offsets)) =>
        match Cut(offsets, '+')
        case None => None
        case Some((x, y)) =>
          match (ParseInt(w), ParseInt(h), ParseInt(x), ParseInt(y))
          case (Some(pw), Some(ph), Some(px), Some(py)) => Some(Placement(pw, ph, px, py))
          case _ => None
  }

  lemma DecimalHasNoSeparator(n: int)
    ensures 'x' !in Decimal(n) && '+' !in Decimal(n)
  {
    var s := Decimal(n);
    forall k | 0 <= k < |s| ensures s[k] != 'x' && s[k] != '+' {
      if k > 0 || s[0] != '-' {
        assert IsDigit(s[k]);
      }
    }
  }

  /** The four numbers written as "WxH+X+Y" read back as themselves, negative
      offsets included. */
  lemma FieldsParse(w: int, h: int, x: int, y: int)
    ensures ParseGeometry(Decimal(w) + "x" + Decimal(h) + "+" + Decimal(x) + "+" + Decimal(y))
      == Some(Placement(w, h, x, y))
  {
    var dw, dh, dx, dy := Decimal(w), Decimal(h), Decimal(x), Decimal(y);
    DecimalHasNoSeparator(w);
    DecimalHasNoSeparator(h);
    DecimalHasNoSeparator(x);
    DecimalRoundTrip(w);
    DecimalRoundTrip(h);
    DecimalRoundTrip(x);
    DecimalRoundTrip(y);
    var offsets := dx + ['+'] + dy;
    var rest := dh + ['+'] + offsets;
    assert dw + "x" + dh + "+" + dx + "+" + dy == dw + ['x'] + rest;
    CutJoin(dw, 'x', rest);
    CutJoin(dh, '+', offsets);
    CutJoin(dx, '+', dy);
  }
}
