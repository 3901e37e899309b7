/**
 * The JavaScript binding names the WebGL back end derives from ids
 * (`shadersym` and `locsym` in src/backends/webgl.ts). A number concatenated
 * to a string is written in decimal, so the names are built from `Decimal`.
 * Each name has a parser that inverts it, which gives that distinct ids give
 * distinct names.
 */
module Names {
  import opened Wrappers

  predicate IsDigit(c: char)
  {
    '0' <= c <= '9'
  }

  predicate AllDigits(s: string)
  {
    forall i :: 0 <= i < |s| ==> IsDigit(s[i])
  }

  /** A decimal numeral as JavaScript writes a non-negative integer: at least
      one digit, and no leading zero unless the numeral is "0". */
  predicate IsNumeral(s: string)
  {
    0 < |s| && AllDigits(s) && (s[0] == '0' ==> s == "0")
  }

  function DigitValue(c: char): (d: nat)
    requires IsDigit(c)
    ensures d < 10
  {
    c as int - '0' as int
  }

  function DigitChar(d: nat): (c: char)
    requires d < 10
    ensures IsDigit(c) && DigitValue(c) == d
  {
    ('0' as int + d) as char
  }

  /** The decimal numeral of `n`. */
  function Decimal(n: nat): (s: string)
    ensures IsNumeral(s)
    ensures s[0] == '0' <==> n == 0
  {
    if n < 10 then [DigitChar(n)] else Decimal(n / 10) + [DigitChar(n % 10)]
  }

  /** The value of a string of decimal digits. */
  function ParseDecimal(s: string): nat
    requires AllDigits(s)
  {
    if s == [] then 0 else 10 * ParseDecimal(s[..|s| - 1]) + DigitValue(s[|s| - 1])
  }

  lemma {:induction false} ParseDecimalInverts(n: nat)
    ensures ParseDecimal(Decimal(n)) == n
  {
    if n >= 10 {
      ParseDecimalInverts(n / 10);
      var s := Decimal(n);
      assert s[..|s| - 1] == Decimal(n / 10);
    }
  }

  lemma {:induction false} ParsePositive(s: string)
    requires AllDigits(s) && 0 < |s| && s[0] != '0'
    ensures ParseDecimal(s) > 0
  {
    if |s| > 1 {
      ParsePositive(s[..|s| - 1]);
    }
  }

  /** A numeral is the decimal numeral of its value: `Decimal` and
      `ParseDecimal` are inverse bijections between nat and numerals. */
  lemma {:induction false} DecimalOfParse(s: string)
    requires IsNumeral(s)
    ensures Decimal(ParseDecimal(s)) == s
  {
    var n := ParseDecimal(s);
    if |s| == 1 {
      assert s[..0] == [] && ParseDecimal([]) == 0;
      assert n == DigitValue(s[0]);
      assert DigitChar(n) == s[0];
    } else {
      var t := s[..|s| - 1];
      assert t[0] == s[0];
      ParsePositive(t);
      DecimalOfParse(t);
      assert n / 10 == ParseDecimal(t) && n % 10 == DigitValue(s[|s| - 1]);
      assert s[|s| - 1] as int == '0' as int + n % 10;
      assert DigitChar(n % 10) == s[|s| - 1];
      assert s == t + [s[|s| - 1]];
    }
  }

  lemma DecimalInjective(a: nat, b: nat)
    requires Decimal(a) == Decimal(b)
    ensures a == b
  {
    ParseDecimalInverts(a);
    ParseDecimalInverts(b);
  }

  /** The index of the first occurrence of `c` in `s`. */
  function Find(s: string, c: char): (r: Option<nat>)
    ensures r.None? <==> c !in s
    ensures r.Some? ==> r.value < |s| && s[r.value] == c && c !in s[..r.value]
  {
    if s == [] then None
    else if s[0] == c then Some(0)
    else match Find(s[1..], c)
      case None => None
      case Some(k) => assert s[..k + 1] == [s[0]] + s[1..][..k]; Some(k + 1)
  }

  /** The name of the JavaScript variable holding the compiled shader program
      of the vertex program `progid`. */
  function ShaderSym(progid: nat): string
  {
    "s" + Decimal(progid)
  }

  /** A shader name reads back to its program id. */
  lemma ShaderSymRoundTrip(progid: nat)
    ensures ParseShaderSym(ShaderSym(progid)) == Some(progid)
  {
    ParseDecimalInverts(progid);
    assert ShaderSym(progid)[1..] == Decimal(progid);
  }

  /** Reads back the program id from a shader name; `None` for any string
      that is not a shader name. */
  function ParseShaderSym(s: string): Option<nat>
  {
    if 1 < |s| && s[0] == 's' && IsNumeral(s[1..]) then Some(ParseDecimal(s[1..])) else None
  }

  /** The name of the JavaScript variable holding the location of the shader
      variable `escid` in the shader program of the quote `scopeid`. */
  function LocSym(scopeid: nat, escid: nat): string
  {
    "s" + Decimal(scopeid) + "l" + Decimal(escid)
  }

  /** Reads back (scope id, variable id) from a location name: the scope is
      the numeral between the leading 's' and the first 'l'. */
  function ParseLocSym(s: string): Option<(nat, nat)>
  {
    if |s| < 2 || s[0] != 's' then None
    else
      var t := s[1..];
      match Find(t, 'l')
      case None => None
      case Some(k) =>
        if IsNumeral(t[..k]) && IsNumeral(t[k + 1..])
        then Some((ParseDecimal(t[..k]), ParseDecimal(t[k + 1..])))
        else None
  }

  /** A location name reads back to its (scope id, variable id). */
  lemma LocSymRoundTrip(scopeid: nat, escid: nat)
    ensures ParseLocSym(LocSym(scopeid, escid)) == Some((scopeid, escid))
  {
    var a, b := Decimal(scopeid), Decimal(escid);
    var s := LocSym(scopeid, escid);
    var t := s[1..];
    assert t == a + "l" + b;
    assert t[|a|] == 'l';
    var k := Find(t, 'l').value;
    assert k == |a|;
    assert t[..k] == a && t[k + 1..] == b;
    ParseDecimalInverts(scopeid);
    ParseDecimalInverts(escid);
  }

  /** Shader names are exactly the strings "s" followed by a numeral, and a
      name determines its program id. */
  lemma ShaderSymOfParse(s: string)
    requires ParseShaderSym(s).Some?
    ensures ShaderSym(ParseShaderSym(s).value) == s
  {
    DecimalOfParse(s[1..]);
    assert s == "s" + s[1..];
  }

  lemma ShaderSymInjective(a: nat, b: nat)
    requires ShaderSym(a) == ShaderSym(b)
    ensures a == b
  {
    ShaderSymRoundTrip(a);
    ShaderSymRoundTrip(b);
  }

  /** Distinct (scope, variable) pairs get distinct location names. */
  lemma LocSymInjective(a: nat, b: nat, c: nat, d: nat)
    requires LocSym(a, b) == LocSym(c, d)
    ensures a == c && b == d
  {
    LocSymRoundTrip(a, b);
    LocSymRoundTrip(c, d);
  }

  /** A shader name never names a location: it holds no 'l'. */
  lemma ShaderSymIsNotLocSym(progid: nat, scopeid: nat, escid: nat)
    ensures ShaderSym(progid) != LocSym(scopeid, escid)
  {
    var s, l := ShaderSym(progid), LocSym(scopeid, escid);
    var i := 1 + |Decimal(scopeid)|;
    assert l[i] == 'l';
  }
}
