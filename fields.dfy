/**
 * The colour field (daiseihai/fields.py): a form field that validates a
 * `#hex` colour code, and a model field that stores the colour as an
 * unsigned integer column and presents it as `#` plus lower-case hex.
 */
module ColorFields {
  import opened Wrappers
  import opened Numerals

  /** `forms.ValidationError('Not a color code')`. */
  datatype ValidationError = NotAColorCode

  /** The `ValueError` that Python's `int(text, 16)` raises on malformed text. */
  datatype ConversionError = ValueError

  /** A value handed to the model field: a string, an integer or `None`. */
  datatype FieldValue = Str(text: string) | Int(number: int) | NoneValue

  predicate IsHexDigit(c: char) {
    IsDigit(c, 16)
  }

  // ---------------------------------------------------------------------
  // ColorFormField.clean

  /** `#` followed by one or more hex digits of either case. */
  predicate IsColorCode(s: string) {
    |s| >= 2 && s[0] == '#' && AllDigits(s[1..], 16)
  }

  /**
   * `re.match(r'^#[A-Fa-f0-9]+$', value)`. Python's `$` also matches just
   * before a newline that ends the string, so one trailing "\n" is accepted.
   */
  predicate MatchesColorPattern(value: string) {
    IsColorCode(value)
    || (|value| > 0 && value[|value| - 1] == '\n' && IsColorCode(value[..|value| - 1]))
  }

  /** ColorFormField.clean: checks the pattern only when the field is required. */
  function Clean(value: string, required: bool): (r: Result<string, ValidationError>)
    ensures r.Ok? ==> r.value == value
    ensures r.Err? <==> required && !MatchesColorPattern(value)
  {
    if required && !MatchesColorPattern(value) then Err(NotAColorCode) else Ok(value)
  }

  // ---------------------------------------------------------------------
  // Python's int(text, 16)

  /** The characters `str.strip()` and `int()` treat as whitespace. */
  predicate IsPyWhitespace(c: char) {
    c in {' ', '\t', '\n', '\r', '\U{000B}', '\U{000C}', '\U{001C}', '\U{001D}', '\U{001E}',
          '\U{001F}', '\U{0085}', '\U{00A0}', '\U{1680}', '\U{2028}', '\U{2029}', '\U{202F}',
          '\U{205F}', '\U{3000}'}
    || '\U{2000}' <= c <= '\U{200A}'
  }

  function StripLeft(s: string): string {
    if |s| > 0 && IsPyWhitespace(s[0]) then StripLeft(s[1..]) else s
  }

  function StripRight(s: string): string {
    if |s| > 0 && IsPyWhitespace(s[|s| - 1]) then StripRight(s[..|s| - 1]) else s
  }

  function Strip(s: string): string {
    StripRight(StripLeft(s))
  }

  /**
   * Digits that may each be preceded by one underscore, `(["_"] hexdigit)*`;
   * the digits with the underscores removed.
   */
  function UnderscoredDigits(s: string): (r: Option<string>)
    ensures r.Some? ==> AllDigits(r.value, 16) && |r.value| <= |s|
    ensures r.Some? && |s| > 0 ==> |r.value| > 0
    ensures AllDigits(s, 16) ==> r == Some(s)
  {
    assert AllDigits(s, 16) && |s| > 0 ==> AllDigits(s[1..], 16) && s == [s[0]] + s[1..];
    if |s| == 0 then Some("")
    else if s[0] == '_' then
      if |s| >= 2 && IsHexDigit(s[1]) then
        match UnderscoredDigits(s[2..])
        case Some(d) => Some([s[1]] + d)
        case None => None
      else None
    else if IsHexDigit(s[0]) then
      match UnderscoredDigits(s[1..])
      case Some(d) => Some([s[0]] + d)
      case None => None
    else None
  }

  /** The body of a base-16 literal after its sign, with or without a `0x` prefix. */
  function LiteralDigits(body: string): (r: Option<string>)
    ensures r.Some? ==> AllDigits(r.value, 16) && |r.value| > 0
    ensures |body| > 0 && AllDigits(body, 16) && !(|body| >= 2 && body[1] in "xX") ==> r == Some(body)
  {
    if |body| >= 2 && body[0] == '0' && (body[1] == 'x' || body[1] == 'X') then
      // `0x` must be followed by at least one digit
      if |body| == 2 then None else UnderscoredDigits(body[2..])
    else if |body| >= 1 && IsHexDigit(body[0]) then
      assert AllDigits(body, 16) ==> AllDigits(body[1..], 16) && body == [body[0]] + body[1..];
      match UnderscoredDigits(body[1..])
      case Some(d) => Some([body[0]] + d)
      case None => None
    else None
  }

  /**
   * `int(text, 16)`: surrounding whitespace, an optional sign, an optional
   * `0x`/`0X` prefix and single underscores between digits are accepted;
   * anything else is a `ValueError`, modelled as `None`.
   */
  function ParseInt16(text: string): Option<int> {
    var t := Strip(text);
    var negative := |t| > 0 && t[0] == '-';
    var body := if |t| > 0 && (t[0] == '-' || t[0] == '+') then t[1..] else t;
    match LiteralDigits(body)
    case Some(d) =>
      var magnitude: int := Value(d, 16);
      Some(if negative then -magnitude else magnitude)
    case None => None
  }

  // ---------------------------------------------------------------------
  // ColorField

  /** `ColorField._to_int`: `int(value[1:], 16)`; the first character is dropped unseen. */
  function ToInt(value: string): Option<int> {
    ParseInt16(if |value| == 0 then value else value[1..])
  }

  /** A plain run of hex digits is parsed by `int(text, 16)` as its value. */
  lemma ParseDigits(text: string)
    requires |text| > 0 && AllDigits(text, 16)
    ensures ParseInt16(text) == Some(Value(text, 16))
  {
    NoWhitespaceInDigits(text);
    PlainLiteral(text);
    ParseUnsigned(text, text);
  }

  lemma PlainLiteral(text: string)
    requires |text| > 0 && AllDigits(text, 16)
    ensures LiteralDigits(text) == Some(text)
  {
    assert |text| >= 2 ==> IsHexDigit(text[1]) && text[1] !in "xX";
  }

  lemma ParseUnsigned(text: string, d: string)
    requires Strip(text) == text && |text| > 0 && IsHexDigit(text[0])
    requires LiteralDigits(text) == Some(d)
    ensures ParseInt16(text) == Some(Value(d, 16))
  {
    assert text[0] != '-' && text[0] != '+';
  }

  lemma ToIntOfDigits(value: string)
    requires |value| >= 2 && AllDigits(value[1..], 16)
    ensures ToInt(value) == Some(Value(value[1..], 16))
  {
    ParseDigits(value[1..]);
  }

  lemma NoWhitespaceInDigits(s: string)
    requires |s| > 0 && AllDigits(s, 16)
    ensures Strip(s) == s
  {
    assert !IsPyWhitespace(s[0]);
    assert StripLeft(s) == s;
    assert !IsPyWhitespace(s[|s| - 1]);
  }

  /** Python's `hex(value)` for a non-negative value. */
  function PyHex(value: nat): string {
    "0x" + Numeral(value, 16)
  }

  /** `s.lstrip(chars)`: drops every leading character that is in `chars`. */
  function LStrip(s: string, chars: set<char>): string {
    if |s| > 0 && s[0] in chars then LStrip(s[1..], chars) else s
  }

  /** `s.zfill(width)`: pads with zeros to `width`, after a leading sign if any. */
  function ZFill(s: string, width: nat): string {
    if |s| >= width then s
    else if |s| > 0 && (s[0] == '+' || s[0] == '-') then [s[0]] + Zeros(width - |s|) + s[1..]
    else Zeros(width - |s|) + s
  }

  /**
   * `ColorField.from_db_value`: `'#' + hex(value).lstrip('0x').zfill(6)`.
   * The column is `integer UNSIGNED`, so the stored value is a natural number.
   */
  function FromDbValue(value: nat): (r: string)
    ensures r == "#" + PadLeft(Digits(value, 16), 6)
  {
    HexLStrip(value);
    "#" + ZFill(LStrip(PyHex(value), {'0', 'x'}), 6)
  }

  /** `lstrip('0x')` removes exactly the `0x` prefix, and the lone `0` of zero. */
  lemma HexLStrip(value: nat)
    ensures LStrip(PyHex(value), {'0', 'x'}) == Digits(value, 16)
    ensures ZFill(Digits(value, 16), 6) == PadLeft(Digits(value, 16), 6)
  {
    DigitsAreDigits(value, 16);
    var d := Digits(value, 16);
    var h := PyHex(value);
    if value == 0 {
      assert h == "0x0";
      assert LStrip(h, {'0', 'x'}) == LStrip("x0", {'0', 'x'}) == LStrip("0", {'0', 'x'});
    } else {
      assert IsDigit(d[0], 16);
      NoSign(d);
      HexPrefix(h, d);
    }
  }

  /** Stripping `0` and `x` from `0x` and a numeral without a leading zero leaves the numeral. */
  lemma HexPrefix(h: string, d: string)
    requires h == "0x" + d && |d| > 0 && d[0] != '0' && d[0] != 'x'
    ensures LStrip(h, {'0', 'x'}) == d
  {
    var chars := {'0', 'x'};
    assert h[1..] == "x" + d && h[1..][1..] == d;
    assert LStrip(h, chars) == LStrip(h[1..], chars) == LStrip(d, chars);
    assert d[0] !in chars;
  }

  /** A string not starting with a sign is zero-filled like `padStart`. */
  lemma NoSign(d: string)
    requires |d| > 0 && d[0] != '+' && d[0] != '-'
    ensures ZFill(d, 6) == PadLeft(d, 6)
  {
  }

  /** ColorField.get_prep_value: strings go through `_to_int`, anything else is unchanged. */
  function GetPrepValue(value: FieldValue): (r: Result<FieldValue, ConversionError>)
    ensures !value.Str? ==> r == Ok(value)
    ensures value.Str? ==> (r.Ok? <==> ToInt(value.text).Some?)
    ensures value.Str? && r.Ok? ==> r.value == Int(ToInt(value.text).value)
  {
    match value
    case Str(text) =>
      (match ToInt(text)
       case Some(n) => Ok(Int(n))
       case None => Err(ValueError))
    case _ => Ok(value)
  }

  /** ColorField.to_python: the same conversion as get_prep_value. */
  function ToPython(value: FieldValue): (r: Result<FieldValue, ConversionError>)
    ensures r == GetPrepValue(value)
    ensures r.Ok? ==> !r.value.Str?
  {
    GetPrepValue(value)
  }

  // ---------------------------------------------------------------------
  // Properties

  /** A stored colour prints as `#` and at least six lower-case hex digits. */
  lemma {:induction false} FromDbValueShape(value: nat)
    ensures |FromDbValue(value)| >= 7 && FromDbValue(value)[0] == '#'
    ensures IsColorCode(FromDbValue(value))
    ensures Lower(FromDbValue(value)) == FromDbValue(value)
    ensures |FromDbValue(value)| == 7 <==> value < 0x100_0000
  {
    var d := Digits(value, 16);
    var p := PadLeft(d, 6);
    var r := FromDbValue(value);
    DigitsAreDigits(value, 16);
    DigitsLength(value, 16, 6);
    assert Pow(16, 6) == 0x100_0000;
    LowerFixed(d);
    PaddedDigits(d);
    HashedCode(p);
  }

  /** `#` before six or more lower-case hex digits is a lower-case colour code. */
  lemma HashedCode(p: string)
    requires |p| >= 6 && AllDigits(p, 16)
    requires forall i :: 0 <= i < |p| ==> LowerChar(p[i]) == p[i]
    ensures IsColorCode("#" + p) && Lower("#" + p) == "#" + p
  {
    var r := "#" + p;
    assert r[1..] == p;
    forall i | 0 <= i < |r| ensures LowerChar(r[i]) == r[i] {
      if i > 0 { assert r[i] == p[i - 1]; }
    }
    LowerFixed(r);
  }

  /** Zero-padding keeps a string of lower-case hex digits one. */
  lemma PaddedDigits(d: string)
    requires AllDigits(d, 16) && forall i :: 0 <= i < |d| ==> LowerChar(d[i]) == d[i]
    ensures |PadLeft(d, 6)| >= 6 && AllDigits(PadLeft(d, 6), 16)
    ensures forall i :: 0 <= i < |PadLeft(d, 6)| ==> LowerChar(PadLeft(d, 6)[i]) == PadLeft(d, 6)[i]
  {
    var p := PadLeft(d, 6);
    if |d| < 6 {
      var z := Zeros(6 - |d|);
      assert p == z + d;
      forall i | 0 <= i < |p| ensures IsDigit(p[i], 16) && LowerChar(p[i]) == p[i] {
        if i < |z| { assert p[i] == '0'; } else { assert p[i] == d[i - |z|]; }
      }
    }
  }

  /** A string is its own lower case exactly when each of its characters is. */
  lemma LowerFixed(s: string)
    ensures Lower(s) == s <==> forall i :: 0 <= i < |s| ==> LowerChar(s[i]) == s[i]
  {
  }

  lemma LowerAppend(a: string, b: string)
    ensures Lower(a + b) == Lower(a) + Lower(b)
  {
  }

  /** Integer round trip: reading back a printed colour gives the stored integer. */
  lemma {:induction false} IntRoundTrip(value: nat)
    ensures ToInt(FromDbValue(value)) == Some(value)
  {
    var d := Digits(value, 16);
    var p := PadLeft(d, 6);
    FromDbValueShape(value);
    assert FromDbValue(value)[1..] == p;
    ToIntOfDigits(FromDbValue(value));
    ValueOfDigits(value, 16);
    if |d| < 6 {
      ValueIgnoresLeadingZeros(6 - |d|, d, 16);
    }
  }

  /** String round trip: a six-digit colour code is printed back in lower case. */
  lemma {:induction false} StringRoundTrip(s: string)
    requires |s| == 7 && IsColorCode(s)
    ensures ToInt(s).Some? && ToInt(s).value >= 0
    ensures FromDbValue(ToInt(s).value) == Lower(s)
  {
    var digits := s[1..];
    var n := Value(digits, 16);
    ToIntOfDigits(s);
    PaddedDigitsOfValue(digits, 16);
    var d := Digits(n, 16);
    assert Zeros(6 - |d|) + d == Lower(digits);
    assert PadLeft(d, 6) == Lower(digits) by {
      if |d| == 6 { assert Zeros(0) + d == d; }
    }
    LowerHashed(s);
  }

  /** Lower-casing a colour code keeps the `#`. */
  lemma LowerHashed(s: string)
    requires |s| > 0 && s[0] == '#'
    ensures Lower(s) == "#" + Lower(s[1..])
  {
    assert s == "#" + s[1..];
    LowerAppend("#", s[1..]);
  }

  /** What the model field stores is a colour code the form field accepts. */
  lemma {:induction false} CleanAcceptsStoredColours(value: nat, required: bool)
    ensures Clean(FromDbValue(value), required) == Ok(FromDbValue(value))
  {
    FromDbValueShape(value);
  }

  /**
   * Every value the required form field accepts converts without error,
   * to the value of its digits; the trailing newline that `$` lets through
   * is stripped by `int()`.
   */
  lemma {:induction false} AcceptedColoursConvert(value: string)
    requires Clean(value, true).Ok?
    ensures ToInt(value).Some? && ToInt(value).value >= 0
    ensures IsColorCode(value) ==> ToInt(value) == Some(Value(value[1..], 16))
    ensures !IsColorCode(value) ==> ToInt(value) == Some(Value(value[..|value| - 1][1..], 16))
  {
    if IsColorCode(value) {
      ToIntOfDigits(value);
    } else {
      var digits := value[..|value| - 1][1..];
      assert value[1..] == digits + "\n";
      NewlineDigits(digits);
    }
  }

  /** `int()` ignores the newline after a run of hex digits. */
  lemma NewlineDigits(digits: string)
    requires |digits| > 0 && AllDigits(digits, 16)
    ensures ParseInt16(digits + "\n") == Some(Value(digits, 16))
  {
    StripNewline(digits);
    NoWhitespaceInDigits(digits);
    ParseStripped(digits + "\n", digits);
    ParseDigits(digits);
  }

  lemma StripNewline(digits: string)
    requires |digits| > 0 && AllDigits(digits, 16)
    ensures Strip(digits + "\n") == StripRight(digits)
  {
    var t := digits + "\n";
    assert StripLeft(t) == t by { assert !IsPyWhitespace(t[0]); }
    assert t[|t| - 1] == '\n' && t[..|t| - 1] == digits;
    assert StripRight(t) == StripRight(digits);
  }

  /** `int()` sees only the stripped text. */
  lemma ParseStripped(x: string, y: string)
    requires Strip(x) == Strip(y)
    ensures ParseInt16(x) == ParseInt16(y)
  {
  }

  /** The model field converts through `_to_int` in both directions of the database. */
  lemma {:induction false} PrepValueRoundTrip(value: nat)
    ensures GetPrepValue(Str(FromDbValue(value))) == Ok(Int(value))
    ensures ToPython(Str(FromDbValue(value))) == Ok(Int(value))
  {
    IntRoundTrip(value);
  }

  /** The pattern does not restrict the length; Python's `int()` grammar is broader still. */
  lemma CleanExamples()
    ensures Clean("#0000ff", true) == Ok("#0000ff")
    ensures Clean("#ABCdef12", true) == Ok("#ABCdef12")
    ensures Clean("#abc\n", true) == Ok("#abc\n")
    ensures Clean("#12345g", true) == Err(NotAColorCode)
    ensures Clean("#", true) == Err(NotAColorCode)
    ensures Clean("red", false) == Ok("red")
  {
    assert !IsColorCode("#12345g") by { assert "#12345g"[1..][5] == 'g'; }
  }

  /** `int()` reads a `0x` prefix, a sign and single underscores after the dropped first character. */
  lemma ToIntPrefixExample()
    ensures ToInt("x0x1F") == Some(31)
  {
    assert "x0x1F"[1..] == "0x1F";
    NoWhitespaceInDigits("1F");
    assert Strip("0x1F") == "0x1F";
    assert "0x1F"[2..] == "1F";
    assert UnderscoredDigits("1F") == Some("1F");
    assert Value("1F", 16) == 31 by { assert "1F"[..1] == "1"; }
  }

  lemma ToIntSignExample()
    ensures ToInt("#-10") == Some(-16)
  {
    assert "#-10"[1..] == "-10";
    assert Strip("-10") == "-10";
    assert "-10"[1..] == "10";
    PlainLiteral("10");
    assert Value("10", 16) == 16 by { assert "10"[..1] == "1"; }
  }

  lemma ToIntUnderscoreExamples()
    ensures ToInt("#f_f") == Some(255)
    ensures ToInt("#f__f") == None
  {
    assert "#f_f"[1..] == "f_f" && "#f__f"[1..] == "f__f";
    assert Strip("f_f") == "f_f";
    assert Strip("f__f") == "f__f";
    UnderscoreExample();
    var body := "f_f";
    assert body[0] == 'f' && body[1..] == "_f" && body[0] != '0';
    assert [body[0]] + "f" == "ff";
    assert LiteralDigits(body) == Some("ff");
    assert "f__f"[1..] == "__f" && "__f"[1] == '_';
    assert UnderscoredDigits("__f") == None;
    assert Value("ff", 16) == 255 by { assert "ff"[..1] == "f"; }
  }

  lemma UnderscoreExample()
    ensures UnderscoredDigits("_f") == Some("f")
  {
    var s := "_f";
    assert |s| == 2 && s[0] == '_' && s[1] == 'f';
    assert s[2..] == "";
    assert UnderscoredDigits(s[2..]) == Some("");
    assert [s[1]] + "" == "f";
  }

  lemma ToIntEmptyExample()
    ensures ToInt("#") == None
    ensures ToInt("") == None
  {
    assert "#"[1..] == "";
  }
}
