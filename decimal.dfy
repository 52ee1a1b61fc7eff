/**
 * The parsing of the `--montecarlo` option: comma-separated decimal
 * integers such as "1,2,3". Each piece is read as Python's `int` reads a
 * string: surrounding white space is ignored, a sign may lead, and single
 * underscores may separate digits.
 */
module Decimal {
  import opened Boards

  /** The ASCII characters Python's `str.strip` removes. */
  predicate IsSpace(ch: char) {
    ch == ' ' || 9 <= ch as int <= 13 || 28 <= ch as int <= 31
  }

  /** Nothing but white space. */
  predicate AllSpace(w: string) {
    forall i :: 0 <= i < |w| ==> IsSpace(w[i])
  }

  predicate IsDigit(ch: char) {
    '0' <= ch <= '9'
  }

  function DigitValue(ch: char): nat
    requires IsDigit(ch)
  {
    ch as int - '0' as int
  }

  function DigitChar(d: nat): (ch: char)
    requires d < 10
    ensures IsDigit(ch) && DigitValue(ch) == d
  {
    ('0' as int + d) as char
  }

  // ---------------------------------------------------------------------
  // Splitting on a separator

  /** The pieces joined back together, `sep` between each two. */
  function Join(parts: seq<string>, sep: char): string
    requires parts != []
  {
    if |parts| == 1 then parts[0] else parts[0] + [sep] + Join(parts[1..], sep)
  }

  /**
   * The pieces of `s` between occurrences of `sep`, as Python's
   * `str.split(sep)`: never an empty list, an empty piece between two
   * adjacent separators or at either end.
   */
  function SplitOn(s: string, sep: char): (parts: seq<string>)
    ensures parts != []
    ensures forall i :: 0 <= i < |parts| ==> sep !in parts[i]
    ensures Join(parts, sep) == s
  {
    if s == [] then [[]]
    else
      var rest := SplitOn(s[1..], sep);
      if s[0] == sep then
        assert ([[]] + rest)[1..] == rest;
        [[]] + rest
      else
        var parts := [[s[0]] + rest[0]] + rest[1..];
        assert parts[1..] == rest[1..];
        assert s == [s[0]] + s[1..];
        parts
  }

  /** A piece without the separator splits into itself. */
  lemma {:induction false} SplitPiece(p: string, sep: char)
    requires sep !in p
    ensures SplitOn(p, sep) == [p]
  {
    if p != [] {
      SplitPiece(p[1..], sep);
      assert [p[0]] + p[1..] == p;
    }
  }

  /** A piece followed by the separator splits off as the first piece. */
  lemma {:induction false} SplitFirst(p: string, sep: char, t: string)
    requires sep !in p
    ensures SplitOn(p + [sep] + t, sep) == [p] + SplitOn(t, sep)
  {
    var s := p + [sep] + t;
    if p == [] {
      assert s[0] == sep && s[1..] == t;
    } else {
      assert s[0] == p[0] && s[1..] == p[1..] + [sep] + t;
      SplitFirst(p[1..], sep, t);
      assert [p[0]] + p[1..] == p;
    }
  }

  /** Splitting undoes joining pieces that do not contain the separator. */
  lemma {:induction false} SplitJoin(parts: seq<string>, sep: char)
    requires parts != [] && forall i :: 0 <= i < |parts| ==> sep !in parts[i]
    ensures SplitOn(Join(parts, sep), sep) == parts
  {
    if |parts| == 1 {
      SplitPiece(parts[0], sep);
    } else {
      SplitJoin(parts[1..], sep);
      SplitFirst(parts[0], sep, Join(parts[1..], sep));
    }
  }

  // ---------------------------------------------------------------------
  // Reading one integer

  /** `s` without its leading white space. */
  function TrimStart(s: string): (r: string)
    ensures r == [] || !IsSpace(r[0])
    ensures |r| <= |s| && r == s[|s| - |r|..]
  {
    if s != [] && IsSpace(s[0]) then TrimStart(s[1..]) else s
  }

  /** `s` without its trailing white space. */
  function TrimEnd(s: string): (r: string)
    ensures r == [] || !IsSpace(r[|r| - 1])
    ensures |r| <= |s| && r == s[..|r|]
  {
    if s != [] && IsSpace(s[|s| - 1]) then TrimEnd(s[..|s| - 1]) else s
  }

  /** What TrimStart removes is white space. */
  lemma {:induction false} TrimStartSpaces(s: string)
    ensures AllSpace(s[..|s| - |TrimStart(s)|])
  {
    if s != [] && IsSpace(s[0]) {
      TrimStartSpaces(s[1..]);
      assert s[1..][..|s| - 1 - |TrimStart(s)|] == s[1..|s| - |TrimStart(s)|];
    }
  }

  /** What TrimEnd removes is white space. */
  lemma {:induction false} TrimEndSpaces(s: string)
    ensures AllSpace(s[|TrimEnd(s)|..])
  {
    if s != [] && IsSpace(s[|s| - 1]) {
      TrimEndSpaces(s[..|s| - 1]);
      assert s[..|s| - 1][|TrimEnd(s)|..] == s[|TrimEnd(s)|..|s| - 1];
    }
  }

  function Strip(s: string): string {
    TrimEnd(TrimStart(s))
  }

  /** A run of digits in which single underscores may separate two digits. */
  predicate Underscored(s: string) {
    s != [] && IsDigit(s[0]) && IsDigit(s[|s| - 1]) &&
    (forall i :: 0 <= i < |s| ==> IsDigit(s[i]) || s[i] == '_') &&
    forall i :: 0 <= i < |s| - 1 && s[i] == '_' ==> s[i + 1] != '_'
  }

  /** The number the digits of `s` spell, read left to right, underscores skipped. */
  function ValueOf(s: string): nat
    requires forall i :: 0 <= i < |s| ==> IsDigit(s[i]) || s[i] == '_'
  {
    if s == [] then 0
    else
      var init := s[..|s| - 1];
      assert forall i :: 0 <= i < |init| ==> init[i] == s[i];
      if s[|s| - 1] == '_' then ValueOf(init) else 10 * ValueOf(init) + DigitValue(s[|s| - 1])
  }

  /**
   * The value of a run of digits in which single underscores may separate
   * two digits; `None` for anything else, the empty run included.
   */
  function ParseDigits(s: string): (r: Option<nat>)
    ensures r.Some? ==> s != [] && IsDigit(s[0]) && IsDigit(s[|s| - 1])
    ensures r.Some? ==> forall i :: 0 <= i < |s| ==> IsDigit(s[i]) || s[i] == '_'
    ensures r.Some? ==> forall i :: 0 <= i < |s| - 1 && s[i] == '_' ==> s[i + 1] != '_'
    decreases |s|
  {
    if s == [] || !IsDigit(s[|s| - 1]) then None
    else if |s| == 1 then Some(DigitValue(s[0]))
    else
      var init := if s[|s| - 2] == '_' then s[..|s| - 2] else s[..|s| - 1];
      match ParseDigits(init)
      case None => None
      case Some(v) =>
        assert init[0] == s[0];
        assert forall i :: 0 <= i < |init| ==> init[i] == s[i];
        Some(10 * v + DigitValue(s[|s| - 1]))
  }

  /** A run of digits is read exactly when it is well formed, and then as the number it spells. */
  lemma {:induction false} ParseDigitsMeaning(s: string)
    ensures ParseDigits(s).Some? <==> Underscored(s)
    ensures ParseDigits(s).Some? ==> ParseDigits(s).value == ValueOf(s)
    decreases |s|
  {
    if s != [] && IsDigit(s[|s| - 1]) && |s| > 1 {
      var init := if s[|s| - 2] == '_' then s[..|s| - 2] else s[..|s| - 1];
      ParseDigitsMeaning(init);
      assert forall i :: 0 <= i < |init| ==> init[i] == s[i];
      if Underscored(s) {
        assert |init| >= 1 && IsDigit(init[|init| - 1]);
        assert Underscored(init);
      }
      if s[|s| - 2] == '_' {
        assert s[..|s| - 1][..|s| - 2] == init;
      }
    }
  }

  /** A spelling of an integer: an optional sign and a well-formed run of digits. */
  function Unsigned(t: string): string {
    if t != [] && (t[0] == '-' || t[0] == '+') then t[1..] else t
  }

  /**
   * The integer `s` spells, as Python's `int(s)` reads it; `None` where
   * `int` raises ValueError.
   */
  function ParseInt(s: string): (r: Option<int>)
    ensures r.Some? ==> Strip(s) != [] && !IsSpace(Strip(s)[0])
  {
    var t := Strip(s);
    match ParseDigits(Unsigned(t))
    case None => None
    case Some(v) => Some(if t[0] == '-' then -(v as int) else v as int)
  }

  /**
   * Read through the independent definitions: `s` is an integer exactly
   * when, stripped, it is an optional sign and a well-formed run of
   * digits, and then the value is that run's, negated after a minus.
   */
  lemma ParseIntMeaning(s: string)
    ensures ParseInt(s).Some? <==> Underscored(Unsigned(Strip(s)))
    ensures ParseInt(s).Some? ==>
      ParseInt(s).value == if Strip(s)[0] == '-' then -(ValueOf(Unsigned(Strip(s))) as int) else ValueOf(Unsigned(Strip(s)))
  {
    ParseDigitsMeaning(Unsigned(Strip(s)));
  }

  /** Leading white space before a text not starting with it is stripped away. */
  lemma {:induction false} TrimStartSpace(w: string, t: string)
    requires AllSpace(w)
    requires t != [] && !IsSpace(t[0])
    ensures TrimStart(w + t) == t
  {
    if w != [] {
      assert (w + t)[1..] == w[1..] + t;
      TrimStartSpace(w[1..], t);
    } else {
      assert w + t == t;
    }
  }

  /** Trailing white space after a text not ending with it is stripped away. */
  lemma {:induction false} TrimEndSpace(t: string, w: string)
    requires AllSpace(w)
    requires t != [] && !IsSpace(t[|t| - 1])
    ensures TrimEnd(t + w) == t
  {
    if w != [] {
      assert (t + w)[..|t + w| - 1] == t + w[..|w| - 1];
      TrimEndSpace(t, w[..|w| - 1]);
    } else {
      assert t + w == t;
    }
  }

  lemma Regroup(a: string, b: string, c: string, d: string)
    ensures a + b + c + d == a + (b + c) + d
  {
  }

  /** Stripping removes exactly the white space around a text that neither starts nor ends with it. */
  lemma StripAround(w1: string, t: string, w2: string)
    requires AllSpace(w1) && AllSpace(w2)
    requires t != [] && !IsSpace(t[0]) && !IsSpace(t[|t| - 1])
    ensures Strip(w1 + t + w2) == t
  {
    TrimStartSpace(w1, t + w2);
    assert w1 + t + w2 == w1 + (t + w2);
    TrimEndSpace(t, w2);
  }

  /** The sign of a signed run of digits comes off, and a minus shows at its head. */
  lemma SignedDigits(sign: string, digits: string)
    requires sign == "" || sign == "+" || sign == "-"
    requires Underscored(digits)
    ensures Unsigned(sign + digits) == digits
    ensures (sign + digits)[0] == '-' <==> sign == "-"
  {
    if sign == "" {
      assert sign + digits == digits;
    } else {
      assert (sign + digits)[1..] == digits;
    }
  }

  /** A text that strips to a sign and a well-formed run of digits reads as their value. */
  lemma ParseIntStripped(s: string, sign: string, digits: string)
    requires sign == "" || sign == "+" || sign == "-"
    requires Underscored(digits) && Strip(s) == sign + digits
    ensures ParseInt(s) == Some(if sign == "-" then -(ValueOf(digits) as int) else ValueOf(digits))
  {
    var t := Strip(s);
    SignedDigits(sign, digits);
    assert Unsigned(t) == digits && (t[0] == '-' <==> sign == "-");
    ParseIntMeaning(s);
    assert ParseInt(s).Some?;
  }

  /**
   * Every form `int` reads: white space, an optional sign, a well-formed
   * run of digits (leading zeros and single underscores included), white
   * space again.
   */
  lemma ParseIntSpelled(w1: string, sign: string, digits: string, w2: string)
    requires AllSpace(w1) && AllSpace(w2)
    requires sign == "" || sign == "+" || sign == "-"
    requires Underscored(digits)
    ensures ParseInt(w1 + sign + digits + w2) == Some(if sign == "-" then -(ValueOf(digits) as int) else ValueOf(digits))
  {
    var t := sign + digits;
    assert t[0] == (if sign == "" then digits[0] else sign[0]);
    assert t[|t| - 1] == digits[|digits| - 1];
    StripAround(w1, t, w2);
    Regroup(w1, sign, digits, w2);
    ParseIntStripped(w1 + sign + digits + w2, sign, digits);
  }

  /** "01_0" is a well-formed run of digits spelling 10. */
  lemma TenWithUnderscore(digits: string)
    requires digits == "01_0"
    ensures Underscored(digits) && ValueOf(digits) == 10
  {
    var a := digits[..3];
    var b := a[..2];
    var c := b[..1];
    assert c[0] == '0' && c[..0] == [] && ValueOf(c) == 0;
    assert b[1] == '1' && b[..1] == c && ValueOf(b) == 1;
    assert a[2] == '_' && a[..2] == b && ValueOf(a) == 1;
    assert digits[3] == '0' && digits[..3] == a;
  }

  /** White space, a plus sign, a leading zero and an underscore: " +01_0 " reads as 10. */
  lemma ParseIntExample(s: string)
    requires s == " +01_0 "
    ensures ParseInt(s) == Some(10)
  {
    var digits := "01_0";
    TenWithUnderscore(digits);
    assert AllSpace(" ");
    assert " " + "+" + digits + " " == s;
    ParseIntSpelled(" ", "+", digits, " ");
  }

  /** The decimal digits of `n`, without leading zeros. */
  function DigitsOf(n: nat): (s: string)
    ensures s != [] && forall i :: 0 <= i < |s| ==> IsDigit(s[i])
  {
    if n < 10 then [DigitChar(n)] else DigitsOf(n / 10) + [DigitChar(n % 10)]
  }

  /** The decimal spelling of `n`, as Python's `str(n)`. */
  function Render(n: int): string {
    if n < 0 then "-" + DigitsOf(-n) else DigitsOf(n)
  }

  lemma {:induction false} ParseDigitsOf(n: nat)
    ensures ParseDigits(DigitsOf(n)) == Some(n)
  {
    if n >= 10 {
      ParseDigitsOf(n / 10);
      var s := DigitsOf(n);
      assert s[..|s| - 1] == DigitsOf(n / 10);
    }
  }

  /** A spelling neither starts nor ends with white space, so stripping keeps it. */
  lemma StripRender(n: int)
    ensures Strip(Render(n)) == Render(n)
  {
    var s := Render(n);
    assert !IsSpace(s[0]) && !IsSpace(s[|s| - 1]);
  }

  /** Reading back the spelling of any integer gives that integer. */
  lemma ParseRender(n: int)
    ensures ParseInt(Render(n)) == Some(n)
  {
    StripRender(n);
    ParseDigitsOf(if n < 0 then -n else n);
    if n < 0 {
      assert Render(n)[1..] == DigitsOf(-n);
    }
  }

  // ---------------------------------------------------------------------
  // The option value

  /** Each piece read as an integer; `None` as soon as one cannot be. */
  function ParseAll(parts: seq<string>): (r: Option<seq<int>>)
    ensures r.Some? <==> forall i :: 0 <= i < |parts| ==> ParseInt(parts[i]).Some?
    ensures r.Some? ==> |r.value| == |parts| && forall i :: 0 <= i < |parts| ==> ParseInt(parts[i]) == Some(r.value[i])
  {
    if parts == [] then Some([])
    else
      match ParseInt(parts[0])
      case None => None
      case Some(x) =>
        match ParseAll(parts[1..])
        case None => None
        case Some(xs) => Some([x] + xs)
  }

  /**
   * The comma-separated integers of `text`, in order; `None` where one of
   * the pieces is not an integer (Python raises ValueError).
   */
  function Split(text: string): (r: Option<seq<int>>)
    ensures r.Some? ==> |r.value| == |SplitOn(text, ',')| >= 1
  {
    ParseAll(SplitOn(text, ','))
  }

  /** The spellings of `xs`, a comma between each two. */
  function JoinInts(xs: seq<int>): string
    requires xs != []
  {
    Join(seq(|xs|, i requires 0 <= i < |xs| => Render(xs[i])), ',')
  }

  lemma {:induction false} RenderHasNoComma(n: int)
    ensures ',' !in Render(n)
  {
    var digits := DigitsOf(if n < 0 then -n else n);
    assert ',' !in digits by {
      forall i | 0 <= i < |digits| ensures digits[i] != ',' {
        assert IsDigit(digits[i]);
      }
    }
  }

  /** Splitting the comma-joined spellings of any non-empty list of integers gives that list back. */
  lemma SplitJoinInts(xs: seq<int>)
    requires xs != []
    ensures Split(JoinInts(xs)) == Some(xs)
  {
    var parts := seq(|xs|, i requires 0 <= i < |xs| => Render(xs[i]));
    forall i | 0 <= i < |parts| ensures ',' !in parts[i] && ParseInt(parts[i]) == Some(xs[i]) {
      RenderHasNoComma(xs[i]);
      ParseRender(xs[i]);
    }
    SplitJoin(parts, ',');
    var r := ParseAll(parts);
    assert r.value == xs;
  }

  /** The example of the option's documentation: "1,2,3" gives 1, 2 and 3. */
  lemma SplitExample()
    ensures Split("1,2,3") == Some([1, 2, 3])
  {
    assert Render(1) == "1" && Render(2) == "2" && Render(3) == "3";
    var parts := seq(3, i requires 0 <= i < 3 => Render([1, 2, 3][i]));
    assert parts == ["1", "2", "3"];
    assert Join(parts[2..], ',') == "3";
    assert Join(parts[1..], ',') == "2,3" by { assert parts[1..][1..] == parts[2..]; }
    assert Join(parts, ',') == "1,2,3";
    SplitJoinInts([1, 2, 3]);
  }

  /** An empty piece is not an integer: "" and "1,,2" give no list. */
  lemma SplitRejectsEmptyPiece()
    ensures Split("") == None
    ensures Split("1,,2") == None
  {
    assert SplitOn("", ',') == [[]];
    assert SplitOn("1,,2", ',')[1] == [];
  }
}
