/**
 * The retailer price strategy chain of price_tracker.py: `fetch_product_price`
 * with `jsonld_prices` and `og_price`, over the text the page's regular
 * expressions and selector have already captured.
 */
module ProductPrice {
  import opened Wrappers
  import opened PriceParser

  /**
   * What the fetched product page offers each strategy.  The page is fetched twice:
   * the pattern runs on the first fetch, everything else on the second.
   * - regexCapture: group 1 of the product's `price_regex` on the first fetch, present when
   *   a pattern is configured and matches (a group that took no part reads as "", which
   *   parses to nothing);
   * - jsonLd: every captured `price`, `lowPrice` and `highPrice` value of every
   *   `application/ld+json` block, in the order `jsonld_prices` visits them;
   * - ogCapture: the `product:price:amount` content, else the `twitter:data1` content;
   * - selectorText: the configured attribute (or the text) of the first node the product's
   *   selector matches, present when a selector is configured and matches ("" when the
   *   attribute is missing).
   */
  datatype PageCaptures = PageCaptures(
    regexCapture: Option<string>,
    jsonLd: seq<string>,
    ogCapture: Option<string>,
    selectorText: Option<string>)

  /** The present values of `os`, in order. */
  function Collected(os: seq<Option<real>>): (r: seq<real>)
    ensures |r| <= |os|
    ensures forall i :: 0 <= i < |r| ==> Some(r[i]) in os
  {
    if os == [] then []
    else
      var front := Collected(os[..|os| - 1]);
      assert forall x :: x in os[..|os| - 1] ==> x in os;
      match os[|os| - 1]
      case Some(p) => front + [p]
      case None => front
  }

  /** A value is collected exactly when it is present somewhere in `os`. */
  lemma {:induction false} CollectedMember(os: seq<Option<real>>, p: real)
    ensures p in Collected(os) <==> Some(p) in os
  {
    if os != [] {
      var front := os[..|os| - 1];
      CollectedMember(front, p);
      assert os == front + [os[|os| - 1]];
    }
  }

  /** Collecting distributes over concatenation: the order of the values is kept. */
  lemma {:induction false} CollectedAppend(a: seq<Option<real>>, b: seq<Option<real>>)
    ensures Collected(a + b) == Collected(a) + Collected(b)
  {
    if b == [] {
      assert a + b == a;
    } else {
      var n := |b| - 1;
      assert (a + b)[..|a + b| - 1] == a + b[..n];
      assert (a + b)[|a + b| - 1] == b[n];
      CollectedAppend(a, b[..n]);
    }
  }

  /** The result of `parse` on every capture, position by position. */
  function ParseEach(parse: string -> Option<real>, caps: seq<string>): (os: seq<Option<real>>)
    ensures |os| == |caps|
  {
    if caps == [] then [] else ParseEach(parse, caps[..|caps| - 1]) + [parse(caps[|caps| - 1])]
  }

  lemma {:induction false} ParseEachAt(parse: string -> Option<real>, caps: seq<string>, i: int)
    requires 0 <= i < |caps|
    ensures ParseEach(parse, caps)[i] == parse(caps[i])
  {
    var n := |caps| - 1;
    if i < n {
      ParseEachAt(parse, caps[..n], i);
      assert caps[..n][i] == caps[i];
    }
  }

  lemma {:induction false} ParseEachAppend(parse: string -> Option<real>, a: seq<string>, b: seq<string>)
    ensures ParseEach(parse, a + b) == ParseEach(parse, a) + ParseEach(parse, b)
  {
    if b == [] {
      assert a + b == a;
    } else {
      var n := |b| - 1;
      assert (a + b)[..|a + b| - 1] == a + b[..n];
      assert (a + b)[|a + b| - 1] == b[n];
      ParseEachAppend(parse, a, b[..n]);
    }
  }

  /** The prices `jsonld_prices` collects: the value of each capture that parses, in order. */
  function ParsedPrices(caps: seq<string>): (ps: seq<real>)
    ensures |ps| <= |caps|
    ensures forall i :: 0 <= i < |ps| ==> ps[i] >= 0.0
  {
    var os := ParseEach(ExtractPriceNumber, caps);
    assert forall j :: 0 <= j < |os| && os[j].Some? ==> os[j].value >= 0.0 by {
      forall j | 0 <= j < |os|
        ensures os[j].Some? ==> os[j].value >= 0.0
      {
        ParseEachAt(ExtractPriceNumber, caps, j);
      }
    }
    Collected(os)
  }

  /** A value is collected exactly when `parse` yields it for some capture. */
  lemma CollectedParseMember(parse: string -> Option<real>, caps: seq<string>, p: real)
    ensures p in Collected(ParseEach(parse, caps)) <==> exists i :: 0 <= i < |caps| && parse(caps[i]) == Some(p)
  {
    var os := ParseEach(parse, caps);
    CollectedMember(os, p);
    if Some(p) in os {
      var i :| 0 <= i < |os| && os[i] == Some(p);
      ParseEachAt(parse, caps, i);
    }
    if exists i :: 0 <= i < |caps| && parse(caps[i]) == Some(p) {
      var i :| 0 <= i < |caps| && parse(caps[i]) == Some(p);
      ParseEachAt(parse, caps, i);
    }
  }

  /** A price is collected exactly when some capture parses to it. */
  lemma ParsedPricesMember(caps: seq<string>, p: real)
    ensures p in ParsedPrices(caps) <==> exists i :: 0 <= i < |caps| && ExtractPriceNumber(caps[i]) == Some(p)
  {
    CollectedParseMember(ExtractPriceNumber, caps, p);
  }

  /** The prices keep the order of the captures: collecting distributes over concatenation. */
  lemma ParsedPricesAppend(a: seq<string>, b: seq<string>)
    ensures ParsedPrices(a + b) == ParsedPrices(a) + ParsedPrices(b)
  {
    ParseEachAppend(ExtractPriceNumber, a, b);
    CollectedAppend(ParseEach(ExtractPriceNumber, a), ParseEach(ExtractPriceNumber, b));
  }

  /** `jsonld_prices`: append the value of every capture that parses. */
  method JsonLdPrices(caps: seq<string>) returns (prices: seq<real>)
    ensures prices == ParsedPrices(caps)
  {
    ghost var os := ParseEach(ExtractPriceNumber, caps);
    prices := [];
    for i := 0 to |caps|
      invariant prices == Collected(os[..i])
    {
      assert os[..i + 1][..i] == os[..i];
      var p := ExtractPriceNumber(caps[i]);
      ParseEachAt(ExtractPriceNumber, caps, i);
      if p.Some? {
        prices := prices + [p.value];
      }
    }
    assert os[..|caps|] == os;
  }

  /**
   * The JSON-LD scan only captures text that begins with a digit, and such text
   * always parses: no capture is lost.
   */
  lemma DigitLedCapturesAllParse(caps: seq<string>)
    requires forall i :: 0 <= i < |caps| ==> caps[i] != [] && IsDigit(caps[i][0])
    ensures |ParsedPrices(caps)| == |caps|
  {
    var os := ParseEach(ExtractPriceNumber, caps);
    forall i | 0 <= i < |os|
      ensures os[i].Some?
    {
      ParseEachAt(ExtractPriceNumber, caps, i);
      assert HasDigit(caps[i]) by { assert IsDigit(caps[i][0]); }
    }
    CollectedAllPresent(os);
  }

  /** Nothing is lost when every value is present. */
  lemma {:induction false} CollectedAllPresent(os: seq<Option<real>>)
    requires forall i :: 0 <= i < |os| ==> os[i].Some?
    ensures |Collected(os)| == |os|
  {
    if os != [] {
      CollectedAllPresent(os[..|os| - 1]);
    }
  }

  /** `min([p for p in ps if p > 0]) if any(p > 0 for p in ps) else None`. */
  function MinPositive(ps: seq<real>): (r: Option<real>)
    ensures r.None? <==> forall i :: 0 <= i < |ps| ==> ps[i] <= 0.0
    ensures r.Some? ==> r.value > 0.0 && r.value in ps
    ensures r.Some? ==> forall i :: 0 <= i < |ps| && ps[i] > 0.0 ==> r.value <= ps[i]
  {
    if ps == [] then None
    else
      var rest := MinPositive(ps[1..]);
      assert forall i :: 1 <= i < |ps| ==> ps[i] == ps[1..][i - 1];
      if ps[0] <= 0.0 then rest
      else if rest.Some? && rest.value < ps[0] then rest
      else Some(ps[0])
  }

  lemma MinPositiveExample()
    ensures MinPositive([50.0, 30.0, -5.0]) == Some(30.0)
  {
    assert [50.0, 30.0, -5.0][1..] == [30.0, -5.0];
    assert [30.0, -5.0][1..] == [-5.0];
    assert [-5.0][1..] == [];
  }

  /** `og_price`: the Open Graph (or Twitter) capture, parsed. */
  function OgPrice(ogCapture: Option<string>): (r: Option<real>)
    ensures r.Some? ==> ogCapture.Some? && r == ExtractPriceNumber(ogCapture.value)
    ensures ogCapture.Some? && r.None? ==> forall i :: 0 <= i < |ogCapture.value| ==> !IsDigit(ogCapture.value[i])
  {
    match ogCapture
    case None => None
    case Some(c) => ExtractPriceNumber(c)
  }

  /**
   * `fetch_product_price` once the page is fetched: the pattern when it matched;
   * else, when the JSON-LD yields any price, the least positive one or nothing at
   * all; else a non-zero Open Graph price; else the selector's text; else nothing.
   */
  function FetchProductPrice(page: PageCaptures): (r: Option<real>)
    ensures r.Some? ==> r.value >= 0.0
    // only the pattern and the selector can produce a zero price
    ensures r.Some? && page.regexCapture.None? && page.selectorText.None? ==> r.value > 0.0
    // whatever the chain returns was read by one of the strategies
    ensures r.Some? ==>
      (page.regexCapture.Some? && r == ExtractPriceNumber(page.regexCapture.value)) ||
      r.value in ParsedPrices(page.jsonLd) || r == OgPrice(page.ogCapture) ||
      (page.selectorText.Some? && r == ExtractPriceNumber(page.selectorText.value))
  {
    if page.regexCapture.Some? then
      ExtractPriceNumber(page.regexCapture.value)
    else
      var jl := ParsedPrices(page.jsonLd);
      if jl != [] then
        MinPositive(jl)
      else
        var og := OgPrice(page.ogCapture);
        if og.Some? && og.value != 0.0 then og
        else if page.selectorText.Some? then ExtractPriceNumber(page.selectorText.value)
        else None
  }

  /** A matching pattern decides alone: structured data, Open Graph and the selector are never consulted. */
  lemma PatternWins(page: PageCaptures, jsonLd: seq<string>, og: Option<string>, sel: Option<string>)
    requires page.regexCapture.Some?
    ensures FetchProductPrice(page) == ExtractPriceNumber(page.regexCapture.value)
    ensures FetchProductPrice(page) == FetchProductPrice(PageCaptures(page.regexCapture, jsonLd, og, sel))
  {
  }

  /**
   * Without a pattern match, JSON-LD that yields any price decides alone: the
   * least positive price, or nothing when none is positive, with no fall back to
   * Open Graph or the selector.
   */
  lemma StructuredDataDecides(page: PageCaptures, og: Option<string>, sel: Option<string>)
    requires page.regexCapture.None? && ParsedPrices(page.jsonLd) != []
    ensures FetchProductPrice(page) == FetchProductPrice(PageCaptures(None, page.jsonLd, og, sel))
    ensures FetchProductPrice(page) == MinPositive(ParsedPrices(page.jsonLd))
    ensures FetchProductPrice(page).None? <==>
      forall i :: 0 <= i < |ParsedPrices(page.jsonLd)| ==> ParsedPrices(page.jsonLd)[i] == 0.0
    // the price read is the least positive one
    ensures FetchProductPrice(page).Some? ==>
      FetchProductPrice(page).value > 0.0 && FetchProductPrice(page).value in ParsedPrices(page.jsonLd) &&
      forall i :: 0 <= i < |ParsedPrices(page.jsonLd)| && ParsedPrices(page.jsonLd)[i] > 0.0 ==>
        FetchProductPrice(page).value <= ParsedPrices(page.jsonLd)[i]
  {
  }

  /** A missing or unparsable Open Graph price, or one of zero (which is falsy), leaves the selector to decide. */
  lemma FalsyOgFallsThrough(page: PageCaptures)
    requires page.regexCapture.None? && ParsedPrices(page.jsonLd) == []
    requires OgPrice(page.ogCapture).None? || OgPrice(page.ogCapture) == Some(0.0)
    ensures FetchProductPrice(page) == (if page.selectorText.Some? then ExtractPriceNumber(page.selectorText.value) else None)
  {
  }

  /** A non-zero Open Graph price wins over the selector. */
  lemma OgBeforeSelector(page: PageCaptures, sel: Option<string>)
    requires page.regexCapture.None? && ParsedPrices(page.jsonLd) == []
    requires OgPrice(page.ogCapture).Some? && OgPrice(page.ogCapture).value != 0.0
    ensures FetchProductPrice(page) == OgPrice(page.ogCapture)
    ensures FetchProductPrice(page) == FetchProductPrice(page.(selectorText := sel))
  {
  }
}
