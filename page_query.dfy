/** The page number of the campground index route: `parseInt(req.query.page)`,
    then `pageQuery ? pageQuery : 1`. */
module PageQuery {
  import opened Wrappers
  import opened JsChars

  /** The text after the leading white space that parseInt skips. */
  function TrimStart(s: string): (r: string)
    ensures |r| <= |s| && r == s[|s| - |r|..]
    ensures r == [] || !IsJsWhitespace(r[0])
    ensures forall k :: 0 <= k < |s| - |r| ==> IsJsWhitespace(s[k])
  {
    if s != [] && IsJsWhitespace(s[0]) then TrimStart(s[1..]) else s
  }

  predicate IsDigitIn(c: char, radix: nat) {
    if radix == 16 then '0' <= c <= '9' || 'a' <= c <= 'f' || 'A' <= c <= 'F'
    else '0' <= c <= '9'
  }

  function DigitValue(c: char): nat {
    if '0' <= c <= '9' then c as int - '0' as int
    else if 'a' <= c <= 'f' then c as int - 'a' as int + 10
    else if 'A' <= c <= 'F' then c as int - 'A' as int + 10
    else 0
  }

  /** The longest prefix of `s` made of digits of the radix. */
  function DigitPrefix(s: string, radix: nat): (r: string)
    ensures |r| <= |s| && r == s[..|r|]
    ensures forall k :: 0 <= k < |r| ==> IsDigitIn(r[k], radix)
    ensures |r| < |s| ==> !IsDigitIn(s[|r|], radix)
  {
    if s != [] && IsDigitIn(s[0], radix) then [s[0]] + DigitPrefix(s[1..], radix) else []
  }

  /** The value of a digit string, most significant digit first. */
  function DigitsValue(d: string, radix: nat): nat {
    if d == [] then 0 else DigitsValue(d[..|d| - 1], radix) * radix + DigitValue(d[|d| - 1])
  }

  /** The digits after the sign: a `0x`/`0X` prefix selects radix 16, and the value
      is that of the longest run of digits that follows; None when there is none. */
  function ParseMagnitude(u: string): Option<nat> {
    var hex := |u| >= 2 && u[0] == '0' && (u[1] == 'x' || u[1] == 'X');
    var radix := if hex then 16 else 10;
    var digits := DigitPrefix(if hex then u[2..] else u, radix);
    if digits == [] then None else Some(DigitsValue(digits, radix))
  }

  /** `parseInt(s)` without a radix argument; None is NaN. White space is skipped
      and one sign is read before the magnitude. */
  function ParseInt(s: string): (r: Option<int>)
    ensures (forall k :: 0 <= k < |s| ==> !('0' <= s[k] <= '9')) ==> r.None?
    ensures r.Some? && r.value < 0 ==> '-' in s
  {
    var t := TrimStart(s);
    var negative := t != [] && t[0] == '-';
    var unsigned := if t != [] && (t[0] == '-' || t[0] == '+') then t[1..] else t;
    match ParseMagnitude(unsigned)
    case None => None
    case Some(m) => var v: int := m; Some(if negative then -v else v)
  }

  /** The page shown: the parsed number when it is truthy (not NaN, not zero),
      otherwise 1. An absent parameter is `undefined`, which parseInt reads as the
      text "undefined". */
  function PageNumber(page: Option<string>): (r: int)
    ensures r != 0
  {
    var parsed := ParseInt(if page.Some? then page.value else "undefined");
    if parsed.Some? && parsed.value != 0 then parsed.value else 1
  }

  // ---------------------------------------------------------------------------
  // Decimal renderings, to state what parseInt reads back

  function DigitChar(d: nat): char
    requires d < 10
  {
    ('0' as int + d) as char
  }

  /** The decimal digits of n, without leading zeros. */
  function NatDigits(n: nat): string
    decreases n
  {
    if n < 10 then [DigitChar(n)] else NatDigits(n / 10) + [DigitChar(n % 10)]
  }

  /** The decimal rendering of n, with a minus sign when n is negative. */
  function DecimalString(n: int): string {
    if n < 0 then "-" + NatDigits(-n) else NatDigits(n)
  }

  lemma {:induction false} NatDigitsAreDigits(n: nat)
    ensures |NatDigits(n)| >= 1
    ensures forall k :: 0 <= k < |NatDigits(n)| ==> '0' <= NatDigits(n)[k] <= '9'
    ensures DigitsValue(NatDigits(n), 10) == n
    decreases n
  {
    if n >= 10 {
      NatDigitsAreDigits(n / 10);
      var d := NatDigits(n);
      assert d[..|d| - 1] == NatDigits(n / 10);
    }
  }

  lemma {:induction false} DigitPrefixOfDigits(s: string, radix: nat)
    requires forall k :: 0 <= k < |s| ==> IsDigitIn(s[k], radix)
    ensures DigitPrefix(s, radix) == s
  {
    if s != [] {
      DigitPrefixOfDigits(s[1..], radix);
      assert [s[0]] + s[1..] == s;
    }
  }

  lemma {:induction false} MagnitudeOfDigits(n: nat)
    ensures ParseMagnitude(NatDigits(n)) == Some(n)
  {
    NatDigitsAreDigits(n);
    var digits := NatDigits(n);
    DigitPrefixOfDigits(digits, 10);
    assert |digits| >= 2 ==> digits[1] != 'x' && digits[1] != 'X';
  }

  /** parseInt of a sign-free or minus-signed text that starts with a digit. */
  lemma ParseIntSigned(negative: bool, u: string)
    requires u != [] && '0' <= u[0] <= '9'
    ensures ParseInt(if negative then "-" + u else u)
         == match ParseMagnitude(u)
            case None => None
            case Some(m) => Some(if negative then -(m as int) else m)
  {
    var s := if negative then "-" + u else u;
    assert s[0] == '-' || '0' <= s[0] <= '9';
    assert !IsJsWhitespace(s[0]);
    assert TrimStart(s) == s;
    if negative {
      assert s[1..] == u;
    }
  }

  /** parseInt reads back every decimal rendering: `parseInt(String(n)) == n`. */
  lemma ParseIntDecimal(n: int)
    ensures ParseInt(DecimalString(n)) == Some(n)
  {
    var m: nat := if n < 0 then -n else n;
    MagnitudeOfDigits(m);
    NatDigitsAreDigits(m);
    ParseIntSigned(n < 0, NatDigits(m));
  }

  /** A missing or unreadable page parameter, and page 0, give page 1; any other
      number is kept as it is, a negative one included. */
  lemma PageNumberDefaults(n: int, text: string)
    ensures PageNumber(None) == 1
    ensures ParseInt(text) == None ==> PageNumber(Some(text)) == 1
    ensures PageNumber(Some(DecimalString(n))) == if n == 0 then 1 else n
  {
    assert "undefined"[0] == 'u';
    assert TrimStart("undefined") == "undefined";
    ParseIntDecimal(n);
  }
}
