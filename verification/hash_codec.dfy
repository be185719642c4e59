/** The viewport <-> URL-hash codec of pages/index.tsx: `extractHash` writes
    `zoom/latitude/longitude`, `mergeHash` reads the three numbers back over a fallback
    viewport. Numbers are modelled as the decimal numerals JavaScript prints and `+s`
    reads. */
module HashCodec {
  import opened Wrappers
  import opened JsText

  type Digit = d: int | 0 <= d < 10

  /** A finite number in plain decimal notation: its sign, the digits before the point and
      the digits after it. */
  datatype Numeral = Numeral(negative: bool, whole: seq<Digit>, frac: seq<Digit>)

  /** The form in which a number is printed: at least one whole digit and no leading zero
      before other digits, no trailing zero after the point, and no "-0". Two canonical
      numerals are equal exactly when they denote the same number. */
  predicate Canonical(n: Numeral) {
    && |n.whole| > 0
    && (n.whole[0] == 0 ==> |n.whole| == 1)
    && (|n.frac| > 0 ==> n.frac[|n.frac| - 1] != 0)
    && (n.negative ==> !(n.whole == [0] && n.frac == []))
  }

  type Number = n: Numeral | Canonical(n) witness Numeral(false, [0], [])

  const Zero: Number := Numeral(false, [0], [])

  predicate IsDigit(c: char) {
    '0' <= c <= '9'
  }

  function DigitChar(d: Digit): (c: char)
    ensures IsDigit(c)
  {
    (d + '0' as int) as char
  }

  function DigitOf(c: char): Digit
    requires IsDigit(c)
  {
    c as int - '0' as int
  }

  /** The digit characters of `ds`. */
  function DigitsText(ds: seq<Digit>): (r: string)
    ensures |r| == |ds|
    ensures forall i :: 0 <= i < |r| ==> IsDigit(r[i]) && DigitOf(r[i]) == ds[i]
  {
    seq(|ds|, i requires 0 <= i < |ds| => DigitChar(ds[i]))
  }

  predicate AllDigits(s: string) {
    forall i :: 0 <= i < |s| ==> IsDigit(s[i])
  }

  /** The digits written by the digit characters `s`. */
  function TextDigits(s: string): (r: seq<Digit>)
    requires AllDigits(s)
    ensures |r| == |s|
    ensures forall i :: 0 <= i < |s| ==> DigitChar(r[i]) == s[i]
  {
    seq(|s|, i requires 0 <= i < |s| => DigitOf(s[i]))
  }

  lemma TextDigitsOfText(ds: seq<Digit>)
    ensures AllDigits(DigitsText(ds)) && TextDigits(DigitsText(ds)) == ds
  {
    var t := DigitsText(ds);
    assert forall i :: 0 <= i < |ds| ==> DigitOf(t[i]) == ds[i];
  }

  function DropLeadingZeros(w: seq<Digit>): (r: seq<Digit>)
    ensures r == [] || r[0] != 0
    decreases |w|
  {
    if |w| > 0 && w[0] == 0 then DropLeadingZeros(w[1..]) else w
  }

  function DropTrailingZeros(f: seq<Digit>): (r: seq<Digit>)
    ensures r == [] || r[|r| - 1] != 0
    decreases |f|
  {
    if |f| > 0 && f[|f| - 1] == 0 then DropTrailingZeros(f[..|f| - 1]) else f
  }

  /** The canonical numeral of sign, whole digits and fraction digits; -0 is 0. */
  function Normalize(negative: bool, whole: seq<Digit>, frac: seq<Digit>): Number {
    var w := DropLeadingZeros(whole);
    var w' := if w == [] then [0] else w;
    var f := DropTrailingZeros(frac);
    Numeral(negative && !(w' == [0] && f == []), w', f)
  }

  /** Normalizing the parts of a canonical numeral gives it back. */
  lemma NormalizeCanonical(n: Number)
    ensures Normalize(n.negative, n.whole, n.frac) == n
  {
    if n.whole[0] == 0 {
      assert n.whole == [0];
      assert DropLeadingZeros(n.whole) == DropLeadingZeros([]) == [];
    } else {
      assert DropLeadingZeros(n.whole) == n.whole;
    }
    assert DropTrailingZeros(n.frac) == n.frac;
  }

  /** The printed digits of a canonical numeral, after its sign. */
  function UnsignedText(n: Number): (r: string)
    ensures |r| > 0 && IsDigit(r[0])
    ensures forall i :: 0 <= i < |r| ==> r[i] == '.' || IsDigit(r[i])
  {
    DigitsText(n.whole) + (if n.frac == [] then "" else "." + DigitsText(n.frac))
  }

  /** The number as a template literal prints it: its sign, then its digits. */
  function Print(n: Number): (r: string)
    ensures r != ""
    ensures '/' !in r
  {
    var u := UnsignedText(n);
    assert '/' !in u by {
      assert forall i :: 0 <= i < |u| ==> u[i] != '/';
    }
    (if n.negative then "-" else "") + u
  }

  /** What `+s` reads as a number, after an optional sign: digits with at most one "."
      among them, and at least one digit. */
  predicate DecimalText(body: string) {
    && (forall i :: 0 <= i < |body| ==> body[i] == '.' || IsDigit(body[i]))
    && (forall i, j :: 0 <= i < j < |body| ==> !(body[i] == '.' && body[j] == '.'))
    && (exists i :: 0 <= i < |body| && IsDigit(body[i]))
  }

  /** `+s`, read as a decimal numeral: the empty string is 0; otherwise an optional sign
      followed by decimal text. Anything else is NaN. */
  function Parse(s: string): (r: Option<Number>)
    ensures s == "" ==> r == Some(Zero)
    ensures s != "" && (s[0] == '-' || s[0] == '+') ==> (r.Some? <==> DecimalText(s[1..]))
    ensures s != "" && s[0] != '-' && s[0] != '+' ==> (r.Some? <==> DecimalText(s))
  {
    if s == "" then Some(Zero)
    else if s[0] == '-' || s[0] == '+' then ParseUnsigned(s[0] == '-', s[1..])
    else ParseUnsigned(false, s)
  }

  /** The text before and after the first "." of `body`, or all of it and "" when there is
      none. */
  function WholeText(body: string): string {
    var dot := IndexOf(body, ".");
    if dot < 0 then body else body[..dot]
  }

  function FracText(body: string): string {
    var dot := IndexOf(body, ".");
    if dot < 0 then "" else body[dot + 1..]
  }

  /** The digits of a numeral after its sign. */
  function ParseUnsigned(negative: bool, body: string): (r: Option<Number>)
    ensures r.Some? <==> DecimalText(body)
  {
    var wholeText, fracText := WholeText(body), FracText(body);
    DecimalTextParts(body);
    if |wholeText| + |fracText| == 0 || !AllDigits(wholeText) || !AllDigits(fracText) then None
    else Some(Normalize(negative, TextDigits(wholeText), TextDigits(fracText)))
  }

  /** Decimal text is exactly text whose parts around the first "." are all digits and
      not both empty. */
  lemma DecimalTextParts(body: string)
    ensures DecimalText(body)
        <==> |WholeText(body)| + |FracText(body)| > 0 && AllDigits(WholeText(body)) && AllDigits(FracText(body))
  {
    if '.' !in body {
      IndexOfCharAbsent(body, '.');
      if AllDigits(body) && |body| > 0 {
        assert IsDigit(body[0]);
      }
    } else {
      IndexOfCharFound(body, '.');
      DecimalTextAroundDot(body, IndexOf(body, "."));
    }
  }

  lemma DecimalTextAroundDot(body: string, dot: int)
    requires 0 <= dot < |body| && body[dot] == '.' && '.' !in body[..dot]
    ensures DecimalText(body) <==> |body| > 1 && AllDigits(body[..dot]) && AllDigits(body[dot + 1..])
  {
    var w, f := body[..dot], body[dot + 1..];
    if |body| > 1 && AllDigits(w) && AllDigits(f) {
      forall i | 0 <= i < |body| ensures body[i] == '.' || IsDigit(body[i]) {
        if i < dot { assert body[i] == w[i]; }
        else if i > dot { assert body[i] == f[i - dot - 1]; }
      }
      forall i, j | 0 <= i < j < |body| ensures !(body[i] == '.' && body[j] == '.') {
        if j < dot { assert body[j] == w[j]; }
        else if j > dot { assert body[j] == f[j - dot - 1]; }
        else { assert body[i] == w[i]; }
      }
      if dot > 0 { assert IsDigit(body[0]) by { assert body[0] == w[0]; } }
      else { assert IsDigit(body[1]) by { assert body[1] == f[0]; } }
    }
    if DecimalText(body) {
      forall i | 0 <= i < |w| ensures IsDigit(w[i]) {
        assert w[i] == body[i];
        assert w[i] in w;
      }
      forall i | 0 <= i < |f| ensures IsDigit(f[i]) {
        assert f[i] == body[dot + 1 + i];
      }
      var k :| 0 <= k < |body| && IsDigit(body[k]);
      assert k != dot;
    }
  }

  lemma ParseUnsignedText(n: Number)
    ensures ParseUnsigned(n.negative, UnsignedText(n)) == Some(n)
  {
    var w := DigitsText(n.whole);
    var body := UnsignedText(n);
    TextDigitsOfText(n.whole);
    TextDigitsOfText(n.frac);
    if n.frac == [] {
      assert body == w;
      assert '.' !in body by {
        assert forall i :: 0 <= i < |body| ==> IsDigit(body[i]);
      }
      IndexOfCharAbsent(body, '.');
    } else {
      assert body[..|w|] == w;
      assert body[|w|] == '.';
      assert '.' !in w by {
        assert forall i :: 0 <= i < |w| ==> IsDigit(w[i]);
      }
      IndexOfChar(body, '.', |w|);
      assert body[|w| + 1..] == DigitsText(n.frac);
    }
    NormalizeCanonical(n);
  }

  /** Reading a printed number gives the number back. */
  lemma ParsePrint(n: Number)
    ensures Parse(Print(n)) == Some(n)
  {
    var body := UnsignedText(n);
    var s := Print(n);
    assert IsDigit(body[0]);
    if n.negative {
      assert s == "-" + body;
      assert s[0] == '-' && s[1..] == body;
    } else {
      assert s == body;
    }
    ParseUnsignedText(n);
  }

  /** The map viewport. Width and height are layout values and are not part of the hash. */
  datatype Viewport = Viewport(width: string, height: string, latitude: Number, longitude: Number, zoom: Number)

  /** `defaultViewport`: the whole world at zoom 2. */
  const DefaultViewport: Viewport := Viewport("100%", "100vh", Zero, Zero, Numeral(false, [2], []))

  /** `extractHash`: `zoom/latitude/longitude`, without a leading "#". It splits into
      exactly the three printed numbers. */
  function ExtractHash(v: Viewport): (r: string)
    ensures Split(r, '/') == [Print(v.zoom), Print(v.latitude), Print(v.longitude)]
  {
    var z, la, lo := Print(v.zoom), Print(v.latitude), Print(v.longitude);
    var r := z + "/" + la + "/" + lo;
    assert Split(r, '/') == [z, la, lo] by {
      assert r == z + ['/'] + (la + ['/'] + lo);
      SplitAround(z, la + ['/'] + lo, '/');
      SplitAround(la, lo, '/');
      SplitNoSeparator(z, '/');
      SplitNoSeparator(la, '/');
      SplitNoSeparator(lo, '/');
    }
    r
  }

  /** The "/"-separated fields of a hash after its first character: one more than there
      are "/", none holding a "/", and joined again they give that text back. */
  function HashFields(hash: string): (r: seq<string>)
    ensures |r| == Count(SliceFrom(hash, 1), '/') + 1
    ensures forall i :: 0 <= i < |r| ==> '/' !in r[i]
    ensures Join(r, '/') == SliceFrom(hash, 1)
  {
    SplitCount(SliceFrom(hash, 1), '/');
    JoinSplit(SliceFrom(hash, 1), '/');
    Split(SliceFrom(hash, 1), '/')
  }

  /** `mergeHash`: drops the first character, splits on "/", and when the first three
      fields all read as numbers puts them into the fallback as zoom, latitude and
      longitude; otherwise returns the fallback. */
  function MergeHash(hash: string, fallback: Viewport): (r: Viewport)
    ensures r.width == fallback.width && r.height == fallback.height
  {
    var fields := HashFields(hash);
    if |fields| < 3 then fallback
    else
      match (Parse(fields[0]), Parse(fields[1]), Parse(fields[2]))
      case (Some(zoom), Some(latitude), Some(longitude)) =>
        fallback.(zoom := zoom, latitude := latitude, longitude := longitude)
      case _ => fallback
  }

  /** Round trip: reading "#" + extractHash(v) over any fallback gives v's zoom, latitude
      and longitude and the fallback's width and height. */
  lemma MergeExtractRoundTrip(v: Viewport, fallback: Viewport)
    ensures MergeHash("#" + ExtractHash(v), fallback)
         == fallback.(zoom := v.zoom, latitude := v.latitude, longitude := v.longitude)
  {
    var h := "#" + ExtractHash(v);
    assert SliceFrom(h, 1) == ExtractHash(v);
    ParsePrint(v.zoom);
    ParsePrint(v.latitude);
    ParsePrint(v.longitude);
  }

  /** In particular a viewport survives the trip through its own hash. */
  lemma ViewportSurvivesHash(v: Viewport)
    ensures MergeHash("#" + ExtractHash(v), v) == v
  {
    MergeExtractRoundTrip(v, v);
  }

  /** Fewer than two "/" after the first character means fewer than three fields: the
      fallback is returned unchanged. */
  lemma MergeHashTooFewFields(hash: string, fallback: Viewport)
    requires Count(SliceFrom(hash, 1), '/') < 2
    ensures MergeHash(hash, fallback) == fallback
  {
  }

  /** A field among the first three that does not read as a number leaves the fallback
      unchanged: there is no partial merge. */
  lemma MergeHashBadField(hash: string, fallback: Viewport, i: nat)
    requires i < 3 && i < |HashFields(hash)| && Parse(HashFields(hash)[i]).None?
    ensures MergeHash(hash, fallback) == fallback
  {
  }

  /** Fields after the third are ignored. */
  lemma MergeHashIgnoresExtraFields(hash: string, extra: string, fallback: Viewport)
    requires |hash| > 0 && |HashFields(hash)| >= 3
    ensures MergeHash(hash + "/" + extra, fallback) == MergeHash(hash, fallback)
  {
    var t := SliceFrom(hash, 1);
    assert SliceFrom(hash + "/" + extra, 1) == t + ['/'] + extra;
    SplitAround(t, extra, '/');
    var fields := HashFields(hash + "/" + extra);
    assert fields[..3] == HashFields(hash)[..3];
  }

  /** `+""` is 0, so empty fields count as numbers: "#//" moves to zoom 0 at 0, 0. */
  lemma MergeHashEmptyFields(fallback: Viewport)
    ensures MergeHash("#//", fallback) == fallback.(zoom := Zero, latitude := Zero, longitude := Zero)
  {
    assert SliceFrom("#//", 1) == [] + ['/'] + ([] + ['/'] + []);
    SplitAround([], [] + ['/'] + [], '/');
    SplitAround([], [], '/');
  }

  /** The default viewport is written as "2/0/0". */
  lemma DefaultHash()
    ensures ExtractHash(DefaultViewport) == "2/0/0"
  {
  }
}
