/**
 * Python's `int(s)` on a string, base 10: surrounding whitespace (the
 * narrower set `int()` skips, not the one of `str.strip`), an optional
 * sign, then ASCII digits with single underscores allowed between digits.
 * Anything else raises `ValueError`, modelled as `None`.
 */
module PyInt {
  import opened Wrappers
  import opened PyStr

  predicate IsDigit(c: char) {
    '0' <= c <= '9'
  }

  function DigitValue(c: char): (d: nat)
    requires IsDigit(c)
    ensures d < 10
  {
    c as int - '0' as int
  }

  function DigitChar(d: nat): (c: char)
    requires d < 10
    ensures IsDigit(c) && DigitValue(c) == d
  {
    (d + '0' as int) as char
  }

  /**
   * The digits of a literal, `digit ('_'? digit)*`, read from the right:
   * the last character is a digit, and the part before it (minus one
   * separating underscore) is again a literal.
   */
  function ParseDigits(s: string): (r: Option<nat>)
    ensures r.Some? ==> s != [] && IsDigit(s[0]) && IsDigit(s[|s| - 1])
    decreases |s|
  {
    if s == [] || !IsDigit(s[|s| - 1]) then None
    else if |s| == 1 then Some(DigitValue(s[0]))
    else
      var init := s[..|s| - 1];
      var body := if init[|init| - 1] == '_' then init[..|init| - 1] else init;
      match ParseDigits(body)
      case None => None
      case Some(n) => Some(10 * n + DigitValue(s[|s| - 1]))
  }

  /**
   * The whitespace `int()` skips around the number. Non-ASCII whitespace
   * (in Latin-1: U+0085 and U+00A0) is first turned into a space; then only
   * '\t'..'\r' and ' ' are skipped. So U+001C..U+001F, which `str.isspace`
   * accepts, are not skipped by `int()`.
   */
  predicate IntSpace(c: char) {
    ('\t' <= c <= '\r') || c == ' ' || c == '\U{85}' || c == '\U{A0}'
  }

  /** The leading whitespace `int()` skips is dropped. */
  function TrimLeft(s: string): (r: string)
    ensures |r| <= |s|
    ensures r == [] || !IntSpace(r[0])
    decreases |s|
  {
    if s != [] && IntSpace(s[0]) then TrimLeft(s[1..]) else s
  }

  /** The trailing whitespace `int()` skips is dropped. */
  function TrimRight(s: string): (r: string)
    ensures |r| <= |s|
    ensures r == [] || !IntSpace(r[|r| - 1])
    decreases |s|
  {
    if s != [] && IntSpace(s[|s| - 1]) then TrimRight(s[..|s| - 1]) else s
  }

  /** The text `int()` reads once the surrounding whitespace is skipped. */
  function Trim(s: string): string {
    TrimRight(TrimLeft(s))
  }

  /** `TrimLeft` removes a prefix of `s` made only of the whitespace `int()` skips. */
  lemma {:induction false} TrimLeftMeaning(s: string)
    ensures TrimLeft(s) == s[|s| - |TrimLeft(s)|..]
    ensures forall i | 0 <= i < |s| - |TrimLeft(s)| :: IntSpace(s[i])
    decreases |s|
  {
    if s != [] && IntSpace(s[0]) {
      TrimLeftMeaning(s[1..]);
      assert s[1..][|s| - 1 - |TrimLeft(s)|..] == s[|s| - |TrimLeft(s)|..];
      forall i | 1 <= i < |s| - |TrimLeft(s)| ensures IntSpace(s[i]) {
        assert s[1..][i - 1] == s[i];
      }
    }
  }

  /** `TrimRight` removes a suffix of `s` made only of the whitespace `int()` skips. */
  lemma {:induction false} TrimRightMeaning(s: string)
    ensures TrimRight(s) == s[..|TrimRight(s)|]
    ensures forall i | |TrimRight(s)| <= i < |s| :: IntSpace(s[i])
    decreases |s|
  {
    if s != [] && IntSpace(s[|s| - 1]) {
      var init := s[..|s| - 1];
      TrimRightMeaning(init);
      assert init[..|TrimRight(s)|] == s[..|TrimRight(s)|];
      forall i | |TrimRight(s)| <= i < |s| - 1 ensures IntSpace(s[i]) {
        assert init[i] == s[i];
      }
    }
  }

  /**
   * The literal after the sign that `int()` accepts: digits and
   * underscores, a digit at either end, and no two underscores in a row.
   */
  predicate IsLiteral(s: string) {
    && s != [] && IsDigit(s[0]) && IsDigit(s[|s| - 1])
    && (forall i | 0 <= i < |s| :: IsDigit(s[i]) || s[i] == '_')
    && (forall i | 0 <= i < |s| - 1 :: s[i] == '_' ==> s[i + 1] != '_')
  }

  /** The digits of `s`, in order, with everything else left out. */
  function DigitsOf(s: string): (ds: string)
    ensures forall i | 0 <= i < |ds| :: IsDigit(ds[i])
  {
    if s == [] then []
    else DigitsOf(s[..|s| - 1]) + if IsDigit(s[|s| - 1]) then [s[|s| - 1]] else []
  }

  /** The number that a string of decimal digits denotes ("007" is 7). */
  function Value(ds: string): nat
    requires forall i | 0 <= i < |ds| :: IsDigit(ds[i])
  {
    if ds == [] then 0 else 10 * Value(ds[..|ds| - 1]) + DigitValue(ds[|ds| - 1])
  }

  /**
   * `ParseDigits` accepts exactly the literals, and reads each as the
   * number its digits denote once the underscores are dropped.
   */
  lemma {:induction false} ParseDigitsMeaning(s: string)
    ensures ParseDigits(s).Some? <==> IsLiteral(s)
    ensures ParseDigits(s).Some? ==> ParseDigits(s).value == Value(DigitsOf(s))
    decreases |s|
  {
    if s == [] || !IsDigit(s[|s| - 1]) {
    } else if |s| == 1 {
      assert s[..0] == [];
      assert DigitsOf(s) == [s[0]];
      assert [s[0]][..0] == [];
    } else {
      var init := s[..|s| - 1];
      var body := if init[|init| - 1] == '_' then init[..|init| - 1] else init;
      ParseDigitsMeaning(body);
      LiteralStep(s, body);
      var d := s[|s| - 1];
      assert DigitsOf(s) == DigitsOf(init) + [d];
      assert DigitsOf(init) == DigitsOf(body) by {
        if init[|init| - 1] == '_' {
          assert DigitsOf(init) == DigitsOf(body) + [];
        }
      }
      assert (DigitsOf(body) + [d])[..|DigitsOf(body)|] == DigitsOf(body);
    }
  }

  /**
   * A text ending in a digit is a literal exactly when what comes before
   * that digit, less one separating underscore, is one.
   */
  lemma LiteralStep(s: string, body: string)
    requires |s| >= 2 && IsDigit(s[|s| - 1])
    requires var init := s[..|s| - 1];
      body == if init[|init| - 1] == '_' then init[..|init| - 1] else init
    ensures IsLiteral(s) <==> IsLiteral(body)
  {
    var n := |s|;
    var gap := s[n - 2] == '_';
    assert body == if gap then s[..n - 2] else s[..n - 1];
    if IsLiteral(s) {
      if gap {
        assert n >= 3 && s[n - 3] != '_';
        assert body[|body| - 1] == s[n - 3];
      }
      assert body[0] == s[0];
      forall i | 0 <= i < |body| ensures IsDigit(body[i]) || body[i] == '_' {
        assert body[i] == s[i];
      }
      forall i | 0 <= i < |body| - 1 ensures body[i] == '_' ==> body[i + 1] != '_' {
        assert body[i] == s[i] && body[i + 1] == s[i + 1];
      }
    }
    if IsLiteral(body) {
      forall i | 0 <= i < n ensures IsDigit(s[i]) || s[i] == '_' {
        if i < |body| {
          assert s[i] == body[i];
        }
      }
      forall i | 0 <= i < n - 1 ensures s[i] == '_' ==> s[i + 1] != '_' {
        if i < |body| - 1 {
          assert s[i] == body[i] && s[i + 1] == body[i + 1];
        } else if i == |body| - 1 {
          assert s[i] == body[i];
        }
      }
      assert s[0] == body[0];
    }
  }

  /** `int(s)`: the whitespace `int()` skips, an optional sign, then a literal. */
  function ParseInt(s: string): Option<int> {
    var t := Trim(s);
    if t != [] && (t[0] == '+' || t[0] == '-') then
      match ParseDigits(t[1..])
      case None => None
      case Some(n) => Some(if t[0] == '-' then -(n as int) else n as int)
    else
      match ParseDigits(t)
      case None => None
      case Some(n) => Some(n)
  }

  /**
   * `int()` skips less whitespace than `strip()`: "1\x1c" strips to "1",
   * yet `int()` refuses it.
   */
  lemma IntSpaceNarrower()
    ensures Strip("1\U{1C}") == "1"
    ensures ParseInt("1\U{1C}") == None
  {
    assert "1\U{1C}"[..1] == "1";
    assert LStrip("1\U{1C}") == "1\U{1C}";
    assert Trim("1\U{1C}") == "1\U{1C}";
  }

  /** `str(n)` for a natural number: its decimal digits, most significant first. */
  function Decimal(n: nat): (s: string)
    ensures s != [] && forall i | 0 <= i < |s| :: IsDigit(s[i])
  {
    if n < 10 then [DigitChar(n)] else Decimal(n / 10) + [DigitChar(n % 10)]
  }

  /** `str(n)`. */
  function IntText(n: int): string {
    if n < 0 then "-" + Decimal(-n) else Decimal(n)
  }

  /** Reading back the decimal digits of `n` gives `n`. */
  lemma {:induction false} ParseDecimal(n: nat)
    ensures ParseDigits(Decimal(n)) == Some(n)
  {
    var s := Decimal(n);
    if n >= 10 {
      ParseDecimal(n / 10);
      var init := Decimal(n / 10);
      assert s[..|s| - 1] == init;
      assert init[|init| - 1] != '_';
    }
  }

  /** Text without whitespace at either end is read by `int()` as it stands. */
  lemma TrimUnspaced(s: string)
    requires s != [] && !IntSpace(s[0]) && !IntSpace(s[|s| - 1])
    ensures Trim(s) == s
  {
  }

  /** `int(str(n)) == n`. */
  lemma ParseIntText(n: int)
    ensures ParseInt(IntText(n)) == Some(n)
  {
    if n < 0 {
      ParseNegativeText(-n);
    } else {
      ParseNaturalText(n);
    }
  }

  lemma ParseNaturalText(n: nat)
    ensures ParseInt(Decimal(n)) == Some(n)
  {
    var d := Decimal(n);
    TrimUnspaced(d);
    assert Trim(d) == d;
    ParseDecimal(n);
  }

  lemma ParseNegativeText(m: nat)
    requires m > 0
    ensures ParseInt("-" + Decimal(m)) == Some(-(m as int))
  {
    var d := Decimal(m);
    var s := "-" + d;
    assert !IntSpace(s[0]);
    assert !IntSpace(s[|s| - 1]) by {
      assert s[|s| - 1] == d[|d| - 1] && IsDigit(d[|d| - 1]);
    }
    TrimUnspaced(s);
    ParseDecimal(m);
    assert ParseDigits(s[1..]) == Some(m) by {
      assert s[1..] == d;
    }
  }

  /** `list(map(int, texts))`: `None` as soon as one text is not an integer. */
  function ParseAll(texts: seq<string>): (r: Option<seq<int>>)
    ensures r.Some? ==> |r.value| == |texts|
  {
    if texts == [] then Some([])
    else
      match ParseInt(texts[0])
      case None => None
      case Some(n) =>
        match ParseAll(texts[1..])
        case None => None
        case Some(rest) => Some([n] + rest)
  }

  /** `list(map(int, texts))` raises exactly when one of the texts is not an integer. */
  lemma {:induction false} ParseAllFails(texts: seq<string>)
    ensures ParseAll(texts).None? <==> exists i | 0 <= i < |texts| :: ParseInt(texts[i]).None?
  {
    if texts != [] {
      ParseAllFails(texts[1..]);
      if exists i | 0 <= i < |texts| - 1 :: ParseInt(texts[1..][i]).None? {
        var i :| 0 <= i < |texts| - 1 && ParseInt(texts[1..][i]).None?;
        assert ParseInt(texts[i + 1]).None?;
      }
      if exists i | 0 <= i < |texts| :: ParseInt(texts[i]).None? {
        var i :| 0 <= i < |texts| && ParseInt(texts[i]).None?;
        if i > 0 {
          assert ParseInt(texts[1..][i - 1]).None?;
        }
      }
    }
  }

  /** `list(map(int, texts))` is `values` exactly when each text reads as the value at its position. */
  lemma ParseAllValues(texts: seq<string>, values: seq<int>)
    ensures ParseAll(texts) == Some(values) <==>
      |values| == |texts| && forall i | 0 <= i < |texts| :: ParseInt(texts[i]) == Some(values[i])
  {
    if ParseAll(texts) == Some(values) {
      ParseAllSound(texts, values);
    }
    if |values| == |texts| && forall i | 0 <= i < |texts| :: ParseInt(texts[i]) == Some(values[i]) {
      ParseAllComplete(texts, values);
    }
  }

  lemma {:induction false} ParseAllSound(texts: seq<string>, values: seq<int>)
    requires ParseAll(texts) == Some(values)
    ensures forall i | 0 <= i < |texts| :: ParseInt(texts[i]) == Some(values[i])
  {
    if texts != [] {
      var rest := ParseAll(texts[1..]).value;
      assert values == [values[0]] + rest;
      ParseAllSound(texts[1..], rest);
      forall i | 0 < i < |texts| ensures ParseInt(texts[i]) == Some(values[i]) {
        assert texts[i] == texts[1..][i - 1] && values[i] == rest[i - 1];
      }
    }
  }

  lemma {:induction false} ParseAllComplete(texts: seq<string>, values: seq<int>)
    requires |values| == |texts|
    requires forall i | 0 <= i < |texts| :: ParseInt(texts[i]) == Some(values[i])
    ensures ParseAll(texts) == Some(values)
  {
    if texts != [] {
      forall i | 0 <= i < |texts| - 1 ensures ParseInt(texts[1..][i]) == Some(values[1..][i]) {
        assert texts[1..][i] == texts[i + 1];
      }
      ParseAllComplete(texts[1..], values[1..]);
      assert ParseInt(texts[0]) == Some(values[0]);
      assert values == [values[0]] + values[1..];
    }
  }

  /** `int()` of a single digit. */
  lemma ParseDigitText(d: nat)
    requires d < 10
    ensures ParseInt([DigitChar(d)]) == Some(d)
  {
    var c := DigitChar(d);
    assert !IntSpace(c);
    TrimUnspaced([c]);
    assert ParseDigits([c]) == Some(d);
  }
}
