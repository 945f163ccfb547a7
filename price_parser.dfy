/**
 * The price text parser (`extract_price_number`) and the percent-drop
 * arithmetic (`pct_drop`) of price_tracker.py.
 *
 * Python floats are modelled as exact reals; `\d` is the ASCII digits.
 */
module PriceParser {
  import opened Wrappers

  predicate IsDigit(c: char) { '0' <= c <= '9' }

  /** The characters `re.sub(r"[^\d.,]", "", text)` keeps. */
  predicate IsPriceChar(c: char) { IsDigit(c) || c == '.' || c == ',' }

  predicate AllDigits(s: string) { forall i :: 0 <= i < |s| ==> IsDigit(s[i]) }

  /** Drop every character that is not a digit, `.` or `,`, keeping the order of the rest. */
  function Clean(s: string): (r: string)
    ensures |r| <= |s|
    ensures forall i :: 0 <= i < |r| ==> IsPriceChar(r[i])
    ensures forall c :: IsPriceChar(c) ==> (c in r <==> c in s)
  {
    if s == [] then [] else (if IsPriceChar(s[0]) then [s[0]] else []) + Clean(s[1..])
  }

  /** Cleaning works character by character: it distributes over concatenation. */
  lemma {:induction false} CleanConcat(a: string, b: string)
    ensures Clean(a + b) == Clean(a) + Clean(b)
  {
    if a == [] {
      assert a + b == b;
    } else {
      var h := if IsPriceChar(a[0]) then [a[0]] else [];
      calc {
        Clean(a + b);
        { assert (a + b)[0] == a[0] && (a + b)[1..] == a[1..] + b; }
        h + Clean(a[1..] + b);
        { CleanConcat(a[1..], b); }
        h + (Clean(a[1..]) + Clean(b));
        (h + Clean(a[1..])) + Clean(b);
        Clean(a) + Clean(b);
      }
    }
  }

  /** A single character is kept exactly when it is a digit, `.` or `,`. */
  lemma CleanChar(c: char)
    ensures Clean([c]) == if IsPriceChar(c) then [c] else []
  {
    assert [c][1..] == [];
  }

  /** `s.rfind(c)`: the index of the last `c`, or -1 when there is none. */
  function LastIndexOf(s: string, c: char): (r: int)
    ensures -1 <= r < |s|
    ensures r >= 0 ==> s[r] == c
    ensures forall j :: r < j < |s| ==> s[j] != c
  {
    if s == [] then -1
    else if s[|s| - 1] == c then |s| - 1
    else LastIndexOf(s[..|s| - 1], c)
  }

  /** `s.replace(c, "")`. */
  function Remove(s: string, c: char): (r: string)
    ensures c !in r
    ensures forall d :: d != c ==> (d in r <==> d in s)
  {
    if s == [] then [] else (if s[0] == c then [] else [s[0]]) + Remove(s[1..], c)
  }

  /** `s.replace(a, b)` for single characters. */
  function Replace(s: string, a: char, b: char): (r: string)
    ensures |r| == |s|
    ensures forall i :: 0 <= i < |s| ==> r[i] == if s[i] == a then b else s[i]
    ensures forall d :: d != a && d != b ==> (d in r <==> d in s)
  {
    if s == [] then [] else [if s[0] == a then b else s[0]] + Replace(s[1..], a, b)
  }

  /**
   * The separator rule: when the last `,` comes after the last `.`, the dots are
   * thousands separators and the comma is the decimal point; otherwise the commas
   * are thousands separators.  Digits are never added or lost.
   */
  function Normalize(cleaned: string): (main: string)
    ensures ',' !in main
    ensures forall c :: IsDigit(c) ==> (c in main <==> c in cleaned)
  {
    if LastIndexOf(cleaned, ',') > LastIndexOf(cleaned, '.') then
      Replace(Remove(cleaned, '.'), ',', '.')
    else
      Remove(cleaned, ',')
  }

  /** One match of `\d+(?:\.\d+)?`: the digits before the point and the (possibly empty) digits after it. */
  datatype Token = Token(whole: string, frac: string)

  /** The text a token was matched from. */
  function Render(t: Token): string
  {
    t.whole + (if t.frac == [] then [] else ['.'] + t.frac)
  }

  /** Length of the greedy run of digits at the start of `s`. */
  function DigitRun(s: string): (n: nat)
    ensures n <= |s|
    ensures forall i :: 0 <= i < n ==> IsDigit(s[i])
    ensures n < |s| ==> !IsDigit(s[n])
  {
    if s != [] && IsDigit(s[0]) then 1 + DigitRun(s[1..]) else 0
  }

  /** The greedy match of `\d+(?:\.\d+)?` that starts at the first character of `s`. */
  function TokenAt(s: string): (t: Token)
    requires s != [] && IsDigit(s[0])
    ensures t.whole != [] && AllDigits(t.whole) && AllDigits(t.frac)
    ensures |Render(t)| <= |s| && s[..|Render(t)|] == Render(t)
    // `\d+` is greedy: the whole part is followed by a non-digit or the end
    ensures |t.whole| == |s| || !IsDigit(s[|t.whole|])
    // the fraction is taken exactly when a point followed by a digit comes next, and greedily
    ensures t.frac == [] <==> !(|t.whole| + 1 < |s| && s[|t.whole|] == '.' && IsDigit(s[|t.whole| + 1]))
    ensures t.frac != [] ==> |Render(t)| == |s| || !IsDigit(s[|Render(t)|])
  {
    var n := DigitRun(s);
    if n + 1 < |s| && s[n] == '.' && IsDigit(s[n + 1]) then
      var rest := s[n + 1..];
      var m := DigitRun(rest);
      var t := Token(s[..n], rest[..m]);
      assert Render(t) == s[..n + 1 + m] by {
        assert s[..n + 1 + m] == s[..n] + [s[n]] + rest[..m];
      }
      assert n + 1 + m < |s| ==> s[n + 1 + m] == rest[m];
      t
    else
      Token(s[..n], [])
  }

  /** Index of the first digit of `s`, or -1. */
  function FirstDigit(s: string): (i: int)
    ensures -1 <= i < |s|
    ensures i >= 0 ==> IsDigit(s[i])
    ensures forall j :: 0 <= j < |s| && (i < 0 || j < i) ==> !IsDigit(s[j])
  {
    if s == [] then -1
    else if IsDigit(s[0]) then 0
    else
      var k := FirstDigit(s[1..]);
      if k < 0 then -1 else k + 1
  }

  /** `i` is the position of the first digit of `s`. */
  predicate LeftmostDigit(s: string, i: int)
  {
    0 <= i < |s| && IsDigit(s[i]) && forall j :: 0 <= j < i ==> !IsDigit(s[j])
  }

  /**
   * `re.search(r"\d+(?:\.\d+)?", s)`: the leftmost match, if any.  Every match
   * starts with a digit, so the leftmost one is the greedy match at the first digit.
   */
  function SearchNumber(s: string): (r: Option<Token>)
    ensures r.None? <==> forall j :: 0 <= j < |s| ==> !IsDigit(s[j])
    ensures r.Some? ==> r.value.whole != [] && AllDigits(r.value.whole) && AllDigits(r.value.frac)
    ensures r.Some? ==> exists i :: LeftmostDigit(s, i) && r.value == TokenAt(s[i..])
  {
    var i := FirstDigit(s);
    if i < 0 then None
    else
      assert LeftmostDigit(s, i);
      Some(TokenAt(s[i..]))
  }

  function Pow10(n: nat): (p: nat)
    ensures p >= 1
  {
    if n == 0 then 1 else 10 * Pow10(n - 1)
  }

  /** The number a string of decimal digits denotes. */
  function DigitsValue(ds: string): (v: nat)
    requires AllDigits(ds)
    ensures v < Pow10(|ds|)
  {
    if ds == [] then 0
    else DigitsValue(ds[..|ds| - 1]) * 10 + (ds[|ds| - 1] as int - '0' as int)
  }

  /** `float(m.group(0))`, exactly: the whole part plus the fraction scaled by its length. */
  function TokenValue(t: Token): (v: real)
    requires AllDigits(t.whole) && AllDigits(t.frac)
    ensures DigitsValue(t.whole) as real <= v < DigitsValue(t.whole) as real + 1.0
  {
    var f, p := DigitsValue(t.frac), Pow10(|t.frac|);
    FractionBelowOne(f, p);
    DigitsValue(t.whole) as real + f as real / p as real
  }

  lemma FractionBelowOne(f: nat, p: nat)
    requires f < p
    ensures 0.0 <= f as real / p as real < 1.0
  {
    var q := f as real / p as real;
    assert q * p as real == f as real;
  }

  predicate HasDigit(s: string) { exists i :: 0 <= i < |s| && IsDigit(s[i]) }

  /** Dropping the non-price characters keeps every digit. */
  lemma CleanKeepsDigits(text: string)
    ensures HasDigit(Clean(text)) <==> HasDigit(text)
  {
    var cleaned := Clean(text);
    if HasDigit(text) {
      var i :| 0 <= i < |text| && IsDigit(text[i]);
      assert text[i] in text;
      assert text[i] in cleaned;
    }
    if HasDigit(cleaned) {
      var j :| 0 <= j < |cleaned| && IsDigit(cleaned[j]);
      assert cleaned[j] in cleaned;
      assert cleaned[j] in text;
    }
  }

  /** The separator rule keeps every digit. */
  lemma NormalizeKeepsDigits(cleaned: string)
    ensures HasDigit(Normalize(cleaned)) <==> HasDigit(cleaned)
  {
    var main := Normalize(cleaned);
    if HasDigit(cleaned) {
      var i :| 0 <= i < |cleaned| && IsDigit(cleaned[i]);
      assert cleaned[i] in cleaned;
      assert cleaned[i] in main;
    }
    if HasDigit(main) {
      var j :| 0 <= j < |main| && IsDigit(main[j]);
      assert main[j] in main;
      assert main[j] in cleaned;
    }
  }

  /**
   * `extract_price_number`: None for empty text, for text with no digit, dot or
   * comma, and for text with no digit at all; otherwise the value of the first
   * number in the separator-normalised text, which is never negative.
   */
  function ExtractPriceNumber(text: string): (r: Option<real>)
    ensures text == [] ==> r.None?
    ensures r.Some? <==> HasDigit(text)
    ensures r.Some? ==> r.value >= 0.0
    // which number is read: see `ExtractReadsLeftmost`
  {
    if text == [] then None
    else
      var cleaned := Clean(text);
      CleanKeepsDigits(text);
      if cleaned == [] then None
      else
        var main := Normalize(cleaned);
        NormalizeKeepsDigits(cleaned);
        match SearchNumber(main)
        case None => None
        case Some(t) => Some(TokenValue(t))
  }

  /**
   * The number read is the leftmost one of the separator-normalised text, taken
   * greedily from its first digit.
   */
  lemma ExtractReadsLeftmost(text: string)
    requires ExtractPriceNumber(text).Some?
    ensures
      exists i :: LeftmostDigit(Normalize(Clean(text)), i) && ExtractPriceNumber(text).value == TokenValue(TokenAt(Normalize(Clean(text))[i..]))
  {
    var main := Normalize(Clean(text));
    var t := SearchNumber(main).value;
    var i :| LeftmostDigit(main, i) && t == TokenAt(main[i..]);
    assert ExtractPriceNumber(text) == Some(TokenValue(t));
  }

  // ---------------------------------------------------------------------
  // The separator rule does not care which convention the page uses.
  // ---------------------------------------------------------------------

  /** Exchange `.` and `,` throughout: "2,747.00" becomes "2.747,00". */
  function SwapSeparators(s: string): (r: string)
    ensures |r| == |s|
  {
    if s == [] then [] else [if s[0] == '.' then ',' else if s[0] == ',' then '.' else s[0]] + SwapSeparators(s[1..])
  }

  lemma {:induction false} SwapConcat(a: string, b: string)
    ensures SwapSeparators(a + b) == SwapSeparators(a) + SwapSeparators(b)
  {
    if a == [] {
      assert a + b == b;
    } else {
      var h := [if a[0] == '.' then ',' else if a[0] == ',' then '.' else a[0]];
      assert (a + b)[1..] == a[1..] + b;
      assert (a + b)[0] == a[0];
      SwapConcat(a[1..], b);
      calc {
        SwapSeparators(a + b);
        h + SwapSeparators(a[1..] + b);
        h + (SwapSeparators(a[1..]) + SwapSeparators(b));
        (h + SwapSeparators(a[1..])) + SwapSeparators(b);
        SwapSeparators(a) + SwapSeparators(b);
      }
    }
  }

  lemma {:induction false} CleanSwap(s: string)
    ensures Clean(SwapSeparators(s)) == SwapSeparators(Clean(s))
  {
    if s != [] {
      var head := if IsPriceChar(s[0]) then [s[0]] else [];
      CleanSwap(s[1..]);
      assert SwapSeparators(s) == SwapSeparators([s[0]]) + SwapSeparators(s[1..]) by {
        SwapConcat([s[0]], s[1..]);
        assert s == [s[0]] + s[1..];
      }
      assert Clean(s) == head + Clean(s[1..]);
      SwapConcat(head, Clean(s[1..]));
      var sw := SwapSeparators(s);
      assert sw[1..] == SwapSeparators(s[1..]);
      assert Clean(sw) == (if IsPriceChar(sw[0]) then [sw[0]] else []) + Clean(sw[1..]);
    }
  }

  lemma {:induction false} LastIndexSwap(s: string)
    ensures LastIndexOf(SwapSeparators(s), ',') == LastIndexOf(s, '.')
    ensures LastIndexOf(SwapSeparators(s), '.') == LastIndexOf(s, ',')
  {
    if s != [] {
      var t := s[..|s| - 1];
      LastIndexSwap(t);
      assert s == t + [s[|s| - 1]];
      SwapConcat(t, [s[|s| - 1]]);
    }
  }

  lemma {:induction false} RemoveSwap(s: string)
    ensures Remove(SwapSeparators(s), ',') == Replace(Remove(s, '.'), ',', '.')
    ensures Replace(Remove(SwapSeparators(s), '.'), ',', '.') == Remove(s, ',')
  {
    if s != [] {
      RemoveSwap(s[1..]);
      assert SwapSeparators(s)[1..] == SwapSeparators(s[1..]);
      ReplaceConcat(if s[0] == '.' then [] else [s[0]], Remove(s[1..], '.'), ',', '.');
      ReplaceConcat(if s[0] == ',' then [] else [if s[0] == '.' then ',' else s[0]],
                    Remove(SwapSeparators(s[1..]), '.'), ',', '.');
    }
  }

  lemma ReplaceConcat(a: string, b: string, x: char, y: char)
    ensures Replace(a + b, x, y) == Replace(a, x, y) + Replace(b, x, y)
  {
    var l := Replace(a + b, x, y);
    var r := Replace(a, x, y) + Replace(b, x, y);
    assert |l| == |r|;
    forall i | 0 <= i < |l| ensures l[i] == r[i] {
      if i < |a| { assert (a + b)[i] == a[i]; } else { assert (a + b)[i] == b[i - |a|]; }
    }
  }

  /** The separator rule reads a swapped string exactly as it reads the original. */
  lemma NormalizeSwap(c: string)
    ensures Normalize(SwapSeparators(c)) == Normalize(c)
  {
    LastIndexSwap(c);
    RemoveSwap(c);
    var lc, ld := LastIndexOf(c, ','), LastIndexOf(c, '.');
    if lc == ld {
      // neither separator occurs, so the swap changes nothing
      assert ',' !in c && '.' !in c;
      SwapIdentity(c);
    }
  }

  /** Reading "2,747.00" and reading "2.747,00" give the same price, for every text. */
  lemma SeparatorConventionIrrelevant(text: string)
    ensures ExtractPriceNumber(SwapSeparators(text)) == ExtractPriceNumber(text)
  {
    if text != [] {
      var c := Clean(text);
      var sc := Clean(SwapSeparators(text));
      CleanSwap(text);
      assert sc == SwapSeparators(c);
      if c != [] {
        NormalizeSwap(c);
        assert Normalize(sc) == Normalize(c);
      }
    }
  }

  lemma {:induction false} SwapIdentity(s: string)
    requires ',' !in s && '.' !in s
    ensures SwapSeparators(s) == s
  {
    if s != [] {
      assert s[0] in s;
      assert forall c :: c in s[1..] ==> c in s;
      SwapIdentity(s[1..]);
    }
  }

  // ---------------------------------------------------------------------
  // Worked examples.
  // ---------------------------------------------------------------------

  lemma {:induction false} CleanIdentity(s: string)
    requires forall i :: 0 <= i < |s| ==> IsPriceChar(s[i])
    ensures Clean(s) == s
  {
    if s != [] { CleanIdentity(s[1..]); }
  }

  lemma {:induction false} RemoveAbsent(s: string, c: char)
    requires c !in s
    ensures Remove(s, c) == s
  {
    if s != [] {
      assert s[0] in s;
      assert forall d :: d in s[1..] ==> d in s;
      RemoveAbsent(s[1..], c);
    }
  }

  lemma {:induction false} RemoveConcat(a: string, b: string, c: char)
    ensures Remove(a + b, c) == Remove(a, c) + Remove(b, c)
  {
    if a == [] {
      assert a + b == b;
    } else {
      var h := if a[0] == c then [] else [a[0]];
      calc {
        Remove(a + b, c);
        { assert (a + b)[0] == a[0] && (a + b)[1..] == a[1..] + b; }
        h + Remove(a[1..] + b, c);
        { RemoveConcat(a[1..], b, c); }
        h + (Remove(a[1..], c) + Remove(b, c));
        (h + Remove(a[1..], c)) + Remove(b, c);
        Remove(a, c) + Remove(b, c);
      }
    }
  }

  /** A single character is dropped exactly when it is the removed one. */
  lemma RemoveChar(d: char, c: char)
    ensures Remove([d], c) == if d == c then [] else [d]
  {
    assert [d][1..] == [];
  }

  /** The greedy digit run of a string of digits followed by a non-digit (or nothing) is exactly those digits. */
  lemma {:induction false} DigitRunOf(w: string, rest: string)
    requires AllDigits(w)
    requires rest == [] || !IsDigit(rest[0])
    ensures DigitRun(w + rest) == |w|
  {
    if w == [] {
      assert w + rest == rest;
    } else {
      assert (w + rest)[0] == w[0];
      assert (w + rest)[1..] == w[1..] + rest;
      DigitRunOf(w[1..], rest);
    }
  }

  lemma {:induction false} RenderChars(t: Token)
    requires AllDigits(t.whole) && AllDigits(t.frac)
    ensures forall i :: 0 <= i < |Render(t)| ==> IsDigit(Render(t)[i]) || Render(t)[i] == '.'
  {
    var r := Render(t);
    forall i | 0 <= i < |r| ensures IsDigit(r[i]) || r[i] == '.' {
      if i < |t.whole| {
        assert r[i] == t.whole[i];
      } else if i > |t.whole| {
        assert r[i] == t.frac[i - |t.whole| - 1];
      }
    }
  }

  /** The text of a number is already clean and normalised. */
  lemma NormalizeRender(t: Token)
    requires AllDigits(t.whole) && AllDigits(t.frac)
    ensures Normalize(Clean(Render(t))) == Render(t)
  {
    var r := Render(t);
    RenderChars(t);
    CleanIdentity(r);
    assert ',' !in r;
    RemoveAbsent(r, ',');
  }

  /** The greedy match over the text of a number is that number. */
  lemma TokenAtRender(t: Token)
    requires t.whole != [] && AllDigits(t.whole) && AllDigits(t.frac)
    ensures SearchNumber(Render(t)) == Some(t)
  {
    var r := Render(t);
    var n := |t.whole|;
    var tail := if t.frac == [] then [] else ['.'] + t.frac;
    assert r == t.whole + tail;
    assert r[0] == t.whole[0];
    assert FirstDigit(r) == 0;
    assert r[0..] == r;
    DigitRunOf(t.whole, tail);
    assert r[..n] == t.whole;
    if t.frac != [] {
      assert r[n + 1..] == t.frac;
      DigitRunOf(t.frac, []);
      assert t.frac + [] == t.frac;
      assert r[n + 1..n + 1 + |t.frac|] == t.frac;
    }
  }

  /** Round trip: the text of a number parses back to that number. */
  lemma ParseRender(t: Token)
    requires t.whole != [] && AllDigits(t.whole) && AllDigits(t.frac)
    ensures ExtractPriceNumber(Render(t)) == Some(TokenValue(t))
  {
    NormalizeRender(t);
    TokenAtRender(t);
    assert Render(t) != [];
    assert Clean(Render(t)) != [] by {
      CleanIdentity(Render(t)) by { RenderChars(t); }
    }
  }

  /** `extract_price_number` step by step: clean, normalise, search, convert. */
  lemma ExtractSteps(text: string, main: string, t: Token)
    requires Clean(text) != [] && Normalize(Clean(text)) == main && SearchNumber(main) == Some(t)
    ensures ExtractPriceNumber(text) == Some(TokenValue(t))
  {
  }

  lemma DigitsValue2747()
    ensures DigitsValue("2747") == 2747
  {
    assert "2747"[..3] == "274";
    assert "274"[..2] == "27";
    assert "27"[..1] == "2";
    assert "2"[..0] == "";
  }

  lemma LastSeparatorsUsStyle()
    ensures LastIndexOf("2,747.00", ',') == 1
    ensures LastIndexOf("2,747.00", '.') == 5
  {
    var s := "2,747.00";
    assert s[1] == ',' && s[2] != ',' && s[3] != ',' && s[4] != ',' && s[5] != ',' && s[6] != ',' && s[7] != ',';
    assert s[5] == '.' && s[6] != '.' && s[7] != '.';
  }

  /** Removing the one `c` that follows a first character `x`. */
  lemma RemoveSecond(x: char, c: char, b: string)
    requires x != c && c !in b
    ensures Remove([x, c] + b, c) == [x] + b
  {
    RemoveConcat([x, c], b, c);
    assert [x, c][1..][1..] == [];
    assert Remove([x, c], c) == [x];
    RemoveAbsent(b, c);
  }

  lemma NormalizeUsStyle()
    ensures Normalize("2,747.00") == "2747.00"
  {
    LastSeparatorsUsStyle();
    assert "2,747.00" == ['2', ','] + "747.00";
    RemoveSecond('2', ',', "747.00");
    assert ['2'] + "747.00" == "2747.00";
  }

  /**
   * `CleanUsStyle` with the literal passed as a parameter: stating the
   * character-wise fact over a variable keeps the solver from unrolling
   * `Clean` over the literal.
   */
  lemma CleanedUsStyle(s: string)
    requires s == "2,747.00"
    ensures Clean(s) == s
  {
    assert forall i :: 0 <= i < |s| ==> IsPriceChar(s[i]);
    CleanIdentity(s);
  }

  lemma CleanUsStyle()
    ensures Clean("2,747.00") == "2,747.00"
  {
    CleanedUsStyle("2,747.00");
  }

  /** The two example numbers, as tokens. */
  lemma RenderExamples()
    ensures Render(Token("2747", "00")) == "2747.00" && AllDigits("2747") && AllDigits("00")
    ensures Render(Token("1", "299")) == "1.299" && AllDigits("1") && AllDigits("299")
  {
  }

  /** The greedy match over the two normalised example texts. */
  lemma SearchExamples()
    ensures SearchNumber("2747.00") == Some(Token("2747", "00"))
    ensures SearchNumber("1.299") == Some(Token("1", "299"))
  {
    RenderExamples();
    TokenAtRender(Token("2747", "00"));
    TokenAtRender(Token("1", "299"));
  }

  lemma ValueUsStyle()
    ensures TokenValue(Token("2747", "00")) == 2747.0
  {
    DigitsValue2747();
    assert DigitsValue("00") == 0 by { assert "00"[..1] == "0"; }
  }

  /** US style: the commas are thousands separators. */
  lemma UsStyleExample()
    ensures ExtractPriceNumber("2,747.00") == Some(2747.0)
  {
    CleanUsStyle();
    NormalizeUsStyle();
    SearchExamples();
    ValueUsStyle();
    ExtractSteps("2,747.00", "2747.00", Token("2747", "00"));
  }

  /** The exchange, character by character. */
  lemma {:induction false} SwapAt(s: string)
    ensures forall i :: 0 <= i < |s| ==>
      SwapSeparators(s)[i] == if s[i] == '.' then ',' else if s[i] == ',' then '.' else s[i]
  {
    if s != [] {
      SwapAt(s[1..]);
      assert forall i :: 1 <= i < |s| ==> SwapSeparators(s)[i] == SwapSeparators(s[1..])[i - 1] && s[i] == s[1..][i - 1];
    }
  }

  /**
   * `SwapUsStyle` with both literals passed as parameters, so that the
   * exchange is compared position by position instead of unrolled.
   */
  lemma SwappedUsStyle(s: string, t: string)
    requires s == "2,747.00" && t == "2.747,00"
    ensures SwapSeparators(s) == t
  {
    var r := SwapSeparators(s);
    SwapAt(s);
    forall i | 0 <= i < |s| ensures r[i] == t[i] { }
  }

  lemma SwapUsStyle()
    ensures SwapSeparators("2,747.00") == "2.747,00"
  {
    SwappedUsStyle("2,747.00", "2.747,00");
  }

  /** European style gives the same price. */
  lemma EuropeanStyleExample()
    ensures ExtractPriceNumber("2.747,00") == Some(2747.0)
  {
    UsStyleExample();
    SwapUsStyle();
    SeparatorConventionIrrelevant("2,747.00");
  }

  lemma CleanLoneComma()
    ensures Clean("$1,299") == "1,299"
  {
    assert "$1,299"[1..] == "1,299";
    CleanIdentity("1,299");
  }

  lemma LastSeparatorsLoneComma()
    ensures LastIndexOf("1,299", ',') == 1
    ensures LastIndexOf("1,299", '.') == -1
  {
    var s := "1,299";
    assert s[1] == ',' && s[2] != ',' && s[3] != ',' && s[4] != ',';
    assert '.' !in s;
  }

  lemma ReplaceLoneComma()
    ensures Replace("1,299", ',', '.') == "1.299"
  {
  }

  lemma NormalizeLoneComma()
    ensures Normalize("1,299") == "1.299"
  {
    LastSeparatorsLoneComma();
    RemoveAbsent("1,299", '.');
    ReplaceLoneComma();
  }

  lemma ValueLoneComma()
    ensures TokenValue(Token("1", "299")) == 1.299
  {
    assert DigitsValue("299") == 299 by {
      assert "299"[..2] == "29";
      assert "29"[..1] == "2";
      assert "2"[..0] == "";
    }
    assert Pow10(3) == 1000;
  }

  /**
   * A lone comma is the last separator, so it is read as the decimal point:
   * "$1,299" is 1.299, not 1299.
   */
  lemma LoneCommaIsDecimalPoint()
    ensures ExtractPriceNumber("$1,299") == Some(1.299)
  {
    CleanLoneComma();
    NormalizeLoneComma();
    SearchExamples();
    ValueLoneComma();
    ExtractSteps("$1,299", "1.299", Token("1", "299"));
  }

  lemma NoPriceExamples()
    ensures ExtractPriceNumber("") == None
    ensures ExtractPriceNumber("abc") == None
    ensures ExtractPriceNumber("..,") == None
  {
    assert forall i :: 0 <= i < |"abc"| ==> !IsDigit("abc"[i]);
    assert forall i :: 0 <= i < |"..,"| ==> !IsDigit("..,"[i]);
  }

  // ---------------------------------------------------------------------
  // pct_drop
  // ---------------------------------------------------------------------

  /**
   * `pct_drop`: the drop from `before` to `after` as a percentage of `before`;
   * 0 when `before` is not positive, negative for a price rise.
   */
  function PctDrop(before: real, after: real): (r: real)
    ensures before <= 0.0 ==> r == 0.0
    ensures before > 0.0 ==> (r > 0.0 <==> after < before) && (r < 0.0 <==> after > before)
    ensures before > 0.0 && after >= 0.0 ==> r <= 100.0
  {
    if before <= 0.0 then 0.0 else ((before - after) / before) * 100.0
  }

  /**
   * A positive reference meets a drop threshold `t` exactly when the new price is
   * at most `100 - t` percent of it.
   */
  lemma DropMeetsThreshold(before: real, after: real, t: real)
    requires before > 0.0
    ensures PctDrop(before, after) >= t <==> after * 100.0 <= before * (100.0 - t)
  {
    var q := (before - after) / before;
    assert q * before == before - after;
    assert PctDrop(before, after) * before == (before - after) * 100.0;
    if PctDrop(before, after) >= t {
      assert PctDrop(before, after) * before >= t * before;
    } else {
      assert PctDrop(before, after) * before < t * before;
    }
  }

  lemma PctDropExamples()
    ensures PctDrop(100.0, 90.0) == 10.0
    ensures PctDrop(100.0, 110.0) == -10.0
    ensures PctDrop(0.0, 50.0) == 0.0
    ensures PctDrop(1000.0, 899.0) == 10.1
    ensures PctDrop(500.0, 440.0) == 12.0
  {
  }
}
