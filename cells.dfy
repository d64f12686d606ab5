/** The roster cell codec: how one cell of a roster table is read as a skill
    code, and how a skill code is written back as cell text.

    Skill codes: -1 excluded, 0 passive (fallback only), 1 active,
    2 weighted (written "w" in a table). */
module Cells {

  datatype Result<T, E> = Ok(value: T) | Err(error: E)

  /** One cell as the table reader delivers it: an empty/NaN cell, a number,
      or text. */
  datatype Cell = Missing | Num(n: int) | Str(s: string)

  /** The reasons a cell is rejected; each carries the offending value. */
  datatype ParseError = InvalidNumber(n: int) | InvalidText(text: string)

  /** The four skill codes -1, 0, 1 and 2. */
  predicate IsCode(v: int) {
    -1 <= v <= 2
  }

  /** Two parse outcomes that accept alike and, when they accept, agree on
      the code (the error payloads may differ). */
  predicate SameOutcome(a: Result<int, ParseError>, b: Result<int, ParseError>) {
    (a.Ok? <==> b.Ok?) && (a.Ok? ==> a.value == b.value)
  }

  // ---------------------------------------------------------------------
  // Text normalisation: trimming and lower-casing

  /** The characters Python's str.isspace accepts, which str.strip removes. */
  predicate IsSpace(c: char) {
    var n := c as int;
    (9 <= n <= 13) || (28 <= n <= 32) || n == 0x85 || n == 0xA0 || n == 0x1680
    || (0x2000 <= n <= 0x200A) || n == 0x2028 || n == 0x2029 || n == 0x202F
    || n == 0x205F || n == 0x3000
  }

  predicate AllSpace(s: string) {
    forall i :: 0 <= i < |s| ==> IsSpace(s[i])
  }

  function StripLeft(s: string): string {
    if |s| > 0 && IsSpace(s[0]) then StripLeft(s[1..]) else s
  }

  function StripRight(s: string): string {
    if |s| > 0 && IsSpace(s[|s| - 1]) then StripRight(s[..|s| - 1]) else s
  }

  /** str.strip(): leading and trailing whitespace removed. */
  function Strip(s: string): string {
    StripRight(StripLeft(s))
  }

  predicate IsUpper(c: char) {
    'A' <= c <= 'Z'
  }

  function LowerChar(c: char): char {
    if IsUpper(c) then (c as int + 32) as char else c
  }

  /** str.lower(), on the ASCII letters. */
  function Lower(s: string): string {
    seq(|s|, i requires 0 <= i < |s| => LowerChar(s[i]))
  }

  /** What parse_value compares a text cell against: trimmed, then lower-cased. */
  function Normalize(s: string): string {
    Lower(Strip(s))
  }

  // ---------------------------------------------------------------------
  // parse_value and format_value

  /** Every normalised spelling parse_value accepts. */
  const Spellings: set<string> := {"", "nan", "none", "w", "1", "0", "-1", "2"}

  /** parse_value: a cell read as a skill code. An empty cell and the texts
      "", "nan", "none" read as 0, "w" reads as 2, the four codes read as
      themselves; any other number or text is rejected. */
  function ParseValue(c: Cell): (r: Result<int, ParseError>)
    ensures r.Ok? ==> IsCode(r.value)
    ensures c.Missing? ==> r == Ok(0)
    ensures c.Num? ==> (r.Ok? <==> IsCode(c.n)) && (r.Ok? ==> r.value == c.n)
    ensures c.Str? ==> (r.Ok? <==> Normalize(c.s) in Spellings)
  {
    match c
    case Missing => Ok(0)
    case Num(n) =>
      if n in {1, 0, -1, 2} then Ok(n) else Err(InvalidNumber(n))
    case Str(s) =>
      var t := Normalize(s);
      if t in {"", "nan", "none"} then Ok(0)
      else if t == "w" then Ok(2)
      else if t == "1" then Ok(1)
      else if t == "0" then Ok(0)
      else if t == "-1" then Ok(-1)
      else if t == "2" then Ok(2)
      else Err(InvalidText(s))
  }

  function DigitChar(d: int): char
    requires 0 <= d < 10
  {
    ('0' as int + d) as char
  }

  /** The decimal digits of a natural number, most significant first. */
  function Decimal(n: nat): (r: string)
    ensures |r| >= 1
    ensures forall i :: 0 <= i < |r| ==> '0' <= r[i] <= '9'
    ensures |r| == 1 <==> n < 10
  {
    if n < 10 then [DigitChar(n)] else Decimal(n / 10) + [DigitChar(n % 10)]
  }

  /** str() of an integer. */
  function FormatInt(n: int): string {
    if n < 0 then "-" + Decimal(-n) else Decimal(n)
  }

  /** format_value: the weighted code 2 is written "w", every other value in
      decimal. */
  function FormatValue(v: int): (r: string)
    ensures r == "w" <==> v == 2
  {
    if v == 2 then
      "w"
    else
      DecimalIsNormal(v);
      assert FormatInt(v)[0] != 'w';
      FormatInt(v)
  }

  // ---------------------------------------------------------------------
  // Lemmas about trimming and lower-casing

  lemma {:induction false} StripLeftPadding(p: string, t: string)
    requires AllSpace(p)
    ensures StripLeft(p + t) == StripLeft(t)
  {
    if p == [] {
      assert p + t == t;
    } else {
      assert (p + t)[1..] == p[1..] + t;
      StripLeftPadding(p[1..], t);
    }
  }

  lemma {:induction false} StripRightPadding(t: string, q: string)
    requires AllSpace(q)
    ensures StripRight(t + q) == StripRight(t)
  {
    if q == [] {
      assert t + q == t;
    } else {
      assert (t + q)[..|t + q| - 1] == t + q[..|q| - 1];
      StripRightPadding(t, q[..|q| - 1]);
    }
  }

  lemma {:induction false} StripLeftAllSpace(s: string)
    requires AllSpace(s)
    ensures StripLeft(s) == []
  {
    if s != [] {
      StripLeftAllSpace(s[1..]);
    }
  }

  lemma {:induction false} StripLeftAppend(s: string, q: string)
    requires !AllSpace(s)
    ensures StripLeft(s + q) == StripLeft(s) + q
  {
    assert s != [];
    assert (s + q)[0] == s[0];
    if IsSpace(s[0]) {
      assert (s + q)[1..] == s[1..] + q;
      assert !AllSpace(s[1..]) by {
        var i :| 0 <= i < |s| && !IsSpace(s[i]);
        assert s[1..][i - 1] == s[i];
      }
      StripLeftAppend(s[1..], q);
    }
  }

  /** Whitespace around a text does not change what strip() gives. */
  lemma StripPadding(p: string, s: string, q: string)
    requires AllSpace(p) && AllSpace(q)
    ensures Strip(p + s + q) == Strip(s)
  {
    assert p + s + q == p + (s + q);
    StripLeftPadding(p, s + q);
    if AllSpace(s) {
      assert AllSpace(s + q) by {
        forall i | 0 <= i < |s + q| ensures IsSpace((s + q)[i]) {
          if i < |s| { assert (s + q)[i] == s[i]; } else { assert (s + q)[i] == q[i - |s|]; }
        }
      }
      StripLeftAllSpace(s + q);
      StripLeftAllSpace(s);
    } else {
      StripLeftAppend(s, q);
      StripRightPadding(StripLeft(s), q);
    }
  }

  /** strip() from the left removes a run of whitespace and stops at a
      character that is not whitespace. */
  lemma {:induction false} StripLeftShape(s: string)
    ensures exists p :: AllSpace(p) && s == p + StripLeft(s)
    ensures StripLeft(s) == [] || !IsSpace(StripLeft(s)[0])
  {
    if |s| > 0 && IsSpace(s[0]) {
      StripLeftShape(s[1..]);
      var p :| AllSpace(p) && s[1..] == p + StripLeft(s[1..]);
      assert AllSpace([s[0]] + p) by {
        forall i | 0 <= i < |[s[0]] + p| ensures IsSpace(([s[0]] + p)[i]) {
          if i > 0 { assert ([s[0]] + p)[i] == p[i - 1]; }
        }
      }
      assert s == [s[0]] + p + StripLeft(s);
    } else {
      assert s == [] + StripLeft(s);
    }
  }

  /** strip() from the right removes a run of whitespace and stops at a
      character that is not whitespace. */
  lemma {:induction false} StripRightShape(s: string)
    ensures exists q :: AllSpace(q) && s == StripRight(s) + q
    ensures StripRight(s) == [] || !IsSpace(StripRight(s)[|StripRight(s)| - 1])
  {
    if |s| > 0 && IsSpace(s[|s| - 1]) {
      var n := |s| - 1;
      StripRightShape(s[..n]);
      var q :| AllSpace(q) && s[..n] == StripRight(s[..n]) + q;
      assert AllSpace(q + [s[n]]) by {
        forall i | 0 <= i < |q + [s[n]]| ensures IsSpace((q + [s[n]])[i]) {
          if i < |q| { assert (q + [s[n]])[i] == q[i]; }
        }
      }
      assert s == s[..n] + [s[n]];
      assert s == StripRight(s) + (q + [s[n]]);
    } else {
      assert s == StripRight(s) + [];
    }
  }

  /** strip() gives exactly the text between the outermost characters that
      are not whitespace: what it removes on either side is whitespace, and
      what it keeps is empty or starts and ends with a character that is
      not. */
  lemma StripShape(s: string)
    ensures exists p, q :: AllSpace(p) && AllSpace(q) && s == p + Strip(s) + q
    ensures Strip(s) == [] || (!IsSpace(Strip(s)[0]) && !IsSpace(Strip(s)[|Strip(s)| - 1]))
  {
    var t := StripLeft(s);
    StripLeftShape(s);
    StripRightShape(t);
    var p :| AllSpace(p) && s == p + t;
    var q :| AllSpace(q) && t == StripRight(t) + q;
    assert s == p + Strip(s) + q;
    if Strip(s) != [] {
      assert Strip(s)[0] == t[0];
    }
  }

  lemma {:induction false} StripLeftLower(s: string)
    ensures StripLeft(Lower(s)) == Lower(StripLeft(s))
  {
    if s != [] {
      assert Lower(s)[1..] == Lower(s[1..]);
      StripLeftLower(s[1..]);
    }
  }

  lemma {:induction false} StripRightLower(s: string)
    ensures StripRight(Lower(s)) == Lower(StripRight(s))
  {
    if s != [] {
      assert Lower(s)[..|s| - 1] == Lower(s[..|s| - 1]);
      StripRightLower(s[..|s| - 1]);
    }
  }

  /** Trimming and lower-casing commute, so the order parse_value applies
      them in does not matter. */
  lemma StripLower(s: string)
    ensures Strip(Lower(s)) == Normalize(s)
  {
    StripLeftLower(s);
    StripRightLower(StripLeft(s));
  }

  // ---------------------------------------------------------------------
  // Properties of parse_value on text

  /** parse_value ignores whitespace around a text cell. */
  lemma ParseIgnoresPadding(p: string, s: string, q: string)
    requires AllSpace(p) && AllSpace(q)
    ensures SameOutcome(ParseValue(Str(p + s + q)), ParseValue(Str(s)))
  {
    StripPadding(p, s, q);
  }

  /** parse_value ignores the case of a text cell. */
  lemma ParseIgnoresCase(s: string, t: string)
    requires Lower(s) == Lower(t)
    ensures SameOutcome(ParseValue(Str(s)), ParseValue(Str(t)))
  {
    StripLower(s);
    StripLower(t);
  }

  /** "w", in any case and with any surrounding whitespace, is the weighted
      code 2. */
  lemma WeightedMarker(p: string, s: string, q: string)
    requires AllSpace(p) && AllSpace(q) && Lower(s) == "w"
    ensures ParseValue(Str(p + s + q)) == Ok(2)
  {
    StripPadding(p, s, q);
    StripLower(s);
    assert Strip("w") == "w";
  }

  /** Empty text and the words "nan" and "none", in any case and with any
      surrounding whitespace, read as the passive code 0. */
  lemma BlankTextIsPassive(p: string, s: string, q: string)
    requires AllSpace(p) && AllSpace(q) && Lower(s) in {"", "nan", "none"}
    ensures ParseValue(Str(p + s + q)) == Ok(0)
  {
    StripPadding(p, s, q);
    StripLower(s);
    assert Strip("") == "" && Strip("nan") == "nan" && Strip("none") == "none";
  }

  // ---------------------------------------------------------------------
  // Round trip of format_value and parse_value

  /** A text with no whitespace and no upper-case letter is its own
      normal form. */
  lemma NormalizeFixed(s: string)
    requires forall i :: 0 <= i < |s| ==> !IsSpace(s[i]) && !IsUpper(s[i])
    ensures Normalize(s) == s
  {
    assert Strip(s) == s;
    assert Lower(s) == s;
  }

  lemma DecimalIsNormal(n: int)
    ensures Normalize(FormatInt(n)) == FormatInt(n)
  {
    var s := FormatInt(n);
    forall i | 0 <= i < |s| ensures !IsSpace(s[i]) && !IsUpper(s[i]) {
      if n < 0 {
        if i > 0 { assert s[i] == Decimal(-n)[i - 1]; }
      }
    }
    NormalizeFixed(s);
  }

  /** The decimal text of an integer is an accepted spelling exactly when
      the integer is a skill code. */
  lemma DecimalSpelling(n: int)
    ensures FormatInt(n) in Spellings <==> IsCode(n)
  {
    var s := FormatInt(n);
    if n >= 0 {
      assert s[0] != '-' && s[0] != 'n' && s[0] != 'w';
      if s == "1" || s == "0" || s == "2" {
        assert n < 10 && s == [DigitChar(n)];
      }
    } else {
      assert s[0] == '-' && s[1..] == Decimal(-n);
      if s == "-1" {
        assert Decimal(-n) == "1";
        assert -n < 10 && Decimal(-n) == [DigitChar(-n)];
      }
    }
  }

  /** format_value then parse_value gives the code back, and accepts nothing
      that is not a code. */
  lemma FormatRoundTrip(v: int)
    ensures ParseValue(Str(FormatValue(v))).Ok? <==> IsCode(v)
    ensures IsCode(v) ==> ParseValue(Str(FormatValue(v))) == Ok(v)
  {
    if v == 2 {
      assert Normalize("w") == "w" by { NormalizeFixed("w"); }
    } else {
      DecimalIsNormal(v);
      DecimalSpelling(v);
      if v == 1 { assert FormatInt(v) == "1"; }
      if v == 0 { assert FormatInt(v) == "0"; }
      if v == -1 { assert FormatInt(v) == "-" + Decimal(1) == "-1"; }
    }
  }

  /** A number and its decimal text read alike, so whether the table reader
      delivers a code column as numbers or as text makes no difference. */
  lemma NumberAndTextAgree(v: int)
    ensures SameOutcome(ParseValue(Num(v)), ParseValue(Str(FormatInt(v))))
  {
    FormatRoundTrip(v);
    if v == 2 {
      DecimalIsNormal(2);
      assert FormatInt(2) == "2";
    }
  }
}
