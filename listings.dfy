/**
 * The used-market half of price_tracker.py: the keyword filter `text_ok`, the
 * per-card reading of `extract_items` (over the strings the card's
 * sub-selectors already yielded) and the candidate loop of `search_used_market`.
 */
module Listings {
  import opened Wrappers
  import opened Seqs
  import opened PriceParser

  // ---------------------------------------------------------------------
  // Strings
  // ---------------------------------------------------------------------

  /** The characters Python's `str.isspace` accepts, which `str.strip()` removes. */
  predicate IsSpace(c: char)
  {
    ('\t' <= c <= '\r') || ('\U{1c}' <= c <= ' ') || c == '\U{85}' || c == '\U{a0}' ||
    c == '\U{1680}' || ('\U{2000}' <= c <= '\U{200a}') || c == '\U{2028}' || c == '\U{2029}' ||
    c == '\U{202f}' || c == '\U{205f}' || c == '\U{3000}'
  }

  /** `s.lstrip()`: the suffix left after the leading whitespace. */
  function StripLeading(s: string): (r: string)
    ensures |r| <= |s| && r == s[|s| - |r|..]
    ensures forall i :: 0 <= i < |s| - |r| ==> IsSpace(s[i])
    ensures r == [] || !IsSpace(r[0])
  {
    if s != [] && IsSpace(s[0]) then
      var r := StripLeading(s[1..]);
      assert s[1..][|s| - 1 - |r|..] == s[|s| - |r|..];
      assert forall i :: 1 <= i < |s| - |r| ==> s[i] == s[1..][i - 1];
      r
    else s
  }

  /** `s.rstrip()`: the prefix left before the trailing whitespace. */
  function StripTrailing(s: string): (r: string)
    ensures |r| <= |s| && r == s[..|r|]
    ensures forall i :: |r| <= i < |s| ==> IsSpace(s[i])
    ensures r == [] || !IsSpace(r[|r| - 1])
  {
    if s != [] && IsSpace(s[|s| - 1]) then StripTrailing(s[..|s| - 1]) else s
  }

  /** Neither end of `s` is whitespace. */
  predicate Trimmed(s: string)
  {
    s == [] || (!IsSpace(s[0]) && !IsSpace(s[|s| - 1]))
  }

  /** Everything of `s` before `a` and from `b` on is whitespace. */
  predicate Padding(s: string, a: int, b: int)
  {
    0 <= a <= b <= |s| && (forall i :: 0 <= i < a ==> IsSpace(s[i])) && (forall i :: b <= i < |s| ==> IsSpace(s[i]))
  }

  /** `s.strip()`: the text between the leading and the trailing whitespace. */
  function Strip(s: string): (r: string)
    ensures |r| <= |s|
    ensures Trimmed(r)
    ensures (forall i :: 0 <= i < |s| ==> IsSpace(s[i])) <==> r == []
  {
    var l := StripLeading(s);
    var r := StripTrailing(l);
    assert r != [] ==> r[0] == l[0];
    assert l != [] ==> l[0] == s[|s| - |l|];
    r
  }

  /** What `strip()` keeps is a slice of `s`: only whitespace is cut, and only from the ends. */
  lemma {:induction false} StripSlice(s: string)
    ensures exists a, b :: Padding(s, a, b) && Strip(s) == s[a..b]
  {
    var l := StripLeading(s);
    var r := StripTrailing(l);
    var a, b := |s| - |l|, |s| - |l| + |r|;
    assert r == s[a..b] by {
      assert l == s[a..] && r == l[..|r|];
    }
    SpacesOfSuffix(s, a, |r|);
    assert Padding(s, a, b);
    assert Strip(s) == r;
  }

  /** Whitespace at the end of the suffix `s[a..]` is whitespace at the end of `s`. */
  lemma {:induction false} SpacesOfSuffix(s: string, a: nat, n: nat)
    requires a + n <= |s|
    requires forall i :: n <= i < |s| - a ==> IsSpace(s[a..][i])
    ensures forall i :: a + n <= i < |s| ==> IsSpace(s[i])
  {
    forall i | a + n <= i < |s|
      ensures IsSpace(s[i])
    {
      assert s[i] == s[a..][i - a];
    }
  }

  /** ASCII lower-casing of one character. */
  function Lower(c: char): (d: char)
    ensures 'A' <= c <= 'Z' ==> 'a' <= d <= 'z' && d as int - c as int == 32
    ensures !('A' <= c <= 'Z') ==> d == c
  {
    if 'A' <= c <= 'Z' then (c as int - 'A' as int + 'a' as int) as char else c
  }

  /** `s.lower()`. */
  function LowerStr(s: string): (r: string)
    ensures |r| == |s|
    ensures forall i :: 0 <= i < |s| ==> r[i] == Lower(s[i])
  {
    if s == [] then [] else [Lower(s[0])] + LowerStr(s[1..])
  }

  lemma LowerStrIdempotent(s: string)
    ensures LowerStr(LowerStr(s)) == LowerStr(s)
  {
    var l := LowerStr(s);
    assert forall i :: 0 <= i < |s| ==> Lower(l[i]) == l[i];
  }

  predicate StartsWith(s: string, prefix: string)
  {
    |prefix| <= |s| && s[..|prefix|] == prefix
  }

  /** Python's `needle in hay` for strings: `needle` occurs somewhere in `hay`. */
  function Contains(needle: string, hay: string): (b: bool)
    ensures b <==> exists i :: 0 <= i <= |hay| - |needle| && StartsWith(hay[i..], needle)
    decreases |hay|
  {
    if StartsWith(hay, needle) then
      assert hay[0..] == hay;
      true
    else if |hay| <= |needle| then
      false
    else
      var b := Contains(needle, hay[1..]);
      assert forall i :: 1 <= i <= |hay| ==> hay[1..][i - 1..] == hay[i..];
      b
  }

  // ---------------------------------------------------------------------
  // text_ok
  // ---------------------------------------------------------------------

  /** `all(k.lower() in s for k in keys)`. */
  function AllOccur(keys: seq<string>, s: string): (b: bool)
    ensures b <==> forall i :: 0 <= i < |keys| ==> Contains(LowerStr(keys[i]), s)
  {
    if keys == [] then true
    else Contains(LowerStr(keys[0]), s) && AllOccur(keys[1..], s)
  }

  /** `any(k.lower() in s for k in keys)`. */
  function AnyOccurs(keys: seq<string>, s: string): (b: bool)
    ensures b <==> exists i :: 0 <= i < |keys| && Contains(LowerStr(keys[i]), s)
  {
    if keys == [] then false
    else Contains(LowerStr(keys[0]), s) || AnyOccurs(keys[1..], s)
  }

  /**
   * `text_ok`: every include keyword occurs in the title and no exclude keyword
   * does, ignoring case; empty lists impose nothing.
   */
  function TextOk(s: string, includes: seq<string>, excludes: seq<string>): (ok: bool)
    ensures ok <==>
      (forall i :: 0 <= i < |includes| ==> Contains(LowerStr(includes[i]), LowerStr(s))) &&
      (forall i :: 0 <= i < |excludes| ==> !Contains(LowerStr(excludes[i]), LowerStr(s)))
  {
    var low := LowerStr(s);
    if includes != [] && !AllOccur(includes, low) then false
    else if excludes != [] && AnyOccurs(excludes, low) then false
    else true
  }

  /** The filter reads the title case-insensitively: lower-casing it first changes nothing. */
  lemma TextOkIgnoresCase(s: string, includes: seq<string>, excludes: seq<string>)
    ensures TextOk(LowerStr(s), includes, excludes) == TextOk(s, includes, excludes)
  {
    LowerStrIdempotent(s);
  }

  /** Lower-casing, checked character by character. */
  lemma LowerStrIs(s: string, t: string)
    requires |s| == |t| && forall i :: 0 <= i < |s| ==> Lower(s[i]) == t[i]
    ensures LowerStr(s) == t
  {
  }

  /**
   * The lower-cased title of the exclude example. The literals are passed as
   * parameters so that the solver compares them position by position instead
   * of unrolling `LowerStr` over the literal.
   */
  lemma LowerTitle(s: string, t: string)
    requires s == "6'7 surfboard 90L" && t == "6'7 surfboard 90l"
    ensures LowerStr(s) == t
  {
    forall i | 0 <= i < |s| ensures Lower(s[i]) == t[i] { }
    LowerStrIs(s, t);
  }

  lemma LowerExcludedExample()
    ensures LowerStr("6'7 surfboard 90L") == "6'7 surfboard 90l"
    ensures LowerStr("90L") == "90l"
  {
    LowerTitle("6'7 surfboard 90L", "6'7 surfboard 90l");
  }

  lemma ContainsExcludedExample()
    ensures Contains("90l", "6'7 surfboard 90l")
  {
    var hay := "6'7 surfboard 90l";
    assert hay[14..] == "90l";
    assert StartsWith(hay[14..], "90l");
  }

  lemma KeywordExcludedExample()
    ensures !TextOk("6'7 surfboard 90L", ["6'7"], ["90L"])
  {
    LowerExcludedExample();
    ContainsExcludedExample();
    assert ["90L"][0] == "90L";
  }

  /** The lower-cased title of the include example, stated as `LowerTitle` is. */
  lemma LowerIncluded(s: string, t: string)
    requires s == "6'7 110L" && t == "6'7 110l"
    ensures LowerStr(s) == t
  {
    forall i | 0 <= i < |s| ensures Lower(s[i]) == t[i] { }
    LowerStrIs(s, t);
  }

  /** A title without a `9` cannot contain "90l". */
  lemma NoNinetyIn(s: string)
    requires forall i :: 0 <= i < |s| ==> s[i] != '9'
    ensures !Contains("90l", s)
  {
    forall i | 0 <= i <= |s| - 3 ensures !StartsWith(s[i..], "90l") {
      assert s[i..][..3][0] == s[i] != "90l"[0];
    }
  }

  lemma LowerIncludedExample()
    ensures LowerStr("6'7 110L") == "6'7 110l"
    ensures LowerStr("6'7") == "6'7"
  {
    LowerIncluded("6'7 110L", "6'7 110l");
  }

  lemma ContainsIncludedExample()
    ensures Contains("6'7", "6'7 110l")
    ensures !Contains("90l", "6'7 110l")
  {
    var low := "6'7 110l";
    assert low[0..] == low && StartsWith(low, "6'7");
    assert forall i :: 0 <= i < |low| ==> low[i] != '9';
    NoNinetyIn(low);
  }

  /** With one include and one exclude keyword, the filter is a single pair of substring tests. */
  lemma TextOkSingle(s: string, inc: string, exc: string)
    ensures TextOk(s, [inc], [exc]) <==> Contains(LowerStr(inc), LowerStr(s)) && !Contains(LowerStr(exc), LowerStr(s))
  {
    assert [inc][0] == inc && [exc][0] == exc;
  }

  lemma KeywordIncludedExample()
    ensures TextOk("6'7 110L", ["6'7"], ["90L"])
  {
    LowerIncludedExample();
    LowerExcludedExample();
    ContainsIncludedExample();
    TextOkSingle("6'7 110L", "6'7", "90L");
  }

  // ---------------------------------------------------------------------
  // extract_items, one card at a time
  // ---------------------------------------------------------------------

  /** The characters that end the authority of a URL. */
  predicate IsDelimiter(c: char) { c == '/' || c == '?' || c == '#' }

  /** `k` ends the authority that starts at `from`: the first delimiter from there on, or the end. */
  predicate AuthorityEndsAt(base: string, from: int, k: int)
  {
    0 <= from <= k <= |base| && (k == |base| || IsDelimiter(base[k])) &&
    forall i :: from <= i < k ==> !IsDelimiter(base[i])
  }

  /** End of the authority of an absolute URL whose authority starts at `from`: the first `/`, `?` or `#`. */
  function AuthorityEnd(base: string, from: nat): (e: nat)
    requires from <= |base|
    ensures AuthorityEndsAt(base, from, e)
    decreases |base| - from
  {
    if from == |base| || IsDelimiter(base[from]) then from else AuthorityEnd(base, from + 1)
  }

  /**
   * `urljoin(base, href)` for a root-relative `href`, simplified: an `http` or
   * `https` base keeps its scheme and authority and takes `href` as the path;
   * any other base leaves `href` as it is.
   */
  function JoinRoot(base: string, href: string): (r: string)
    requires StartsWith(href, "/")
    ensures |href| <= |r| && r[|r| - |href|..] == href
    ensures StartsWith(base, "http://") || StartsWith(base, "https://") ==> StartsWith(r, "http")
    ensures !(StartsWith(base, "http://") || StartsWith(base, "https://")) ==> r == href
    // an absolute base keeps exactly its scheme and authority
    ensures StartsWith(base, "http://") ==> exists k :: AuthorityEndsAt(base, 7, k) && r == base[..k] + href
    ensures StartsWith(base, "https://") ==> exists k :: AuthorityEndsAt(base, 8, k) && r == base[..k] + href
  {
    if StartsWith(base, "http://") then
      var k := AuthorityEnd(base, 7);
      assert AuthorityEndsAt(base, 7, k);
      assert base[4] == base[..7][4] == ':';
      assert !StartsWith(base, "https://") by {
        if |base| >= 8 { assert base[..8][4] == base[4]; }
      }
      assert (base[..k] + href)[..4] == base[..7][..4];
      base[..k] + href
    else if StartsWith(base, "https://") then
      var k := AuthorityEnd(base, 8);
      assert AuthorityEndsAt(base, 8, k);
      assert (base[..k] + href)[..4] == base[..8][..4];
      base[..k] + href
    else href
  }

  /** Both absolute schemes start with "http". */
  lemma SchemePrefix(base: string)
    ensures StartsWith(base, "http://") || StartsWith(base, "https://") ==> StartsWith(base, "http")
  {
    if StartsWith(base, "http://") {
      assert base[..4] == base[..7][..4];
    }
    if StartsWith(base, "https://") {
      assert base[..4] == base[..8][..4];
    }
  }

  /** A string that does not start with `/` starts with neither `/` nor `//`. */
  lemma NoLeadingSlash(u: string)
    requires u != [] && u[0] != '/'
    ensures !StartsWith(u, "/") && !StartsWith(u, "//")
  {
    assert u[..1][0] == u[0];
  }

  /**
   * The href rule of `extract_items` (after `strip()`): protocol-relative links get
   * `https:`, root-relative ones are joined to an `http` base; afterwards no link
   * is protocol-relative, and none is root-relative when the base is absolute.
   */
  function NormaliseHref(href: string, base: string): (url: string)
    ensures url == [] <==> href == []
    ensures !StartsWith(url, "//")
    ensures StartsWith(base, "http://") || StartsWith(base, "https://") ==> !StartsWith(url, "/")
    ensures |href| <= |url| && url[|url| - |href|..] == href
    ensures StartsWith(href, "//") ==> url == "https:" + href
    ensures !StartsWith(href, "//") && StartsWith(href, "/") && StartsWith(base, "http") ==> url == JoinRoot(base, href)
    ensures !StartsWith(href, "//") && !(StartsWith(href, "/") && StartsWith(base, "http")) ==> url == href
  {
    SchemePrefix(base);
    if StartsWith(href, "//") then
      var u := "https:" + href;
      assert u[0] == 'h' && u[|u| - |href|..] == href;
      NoLeadingSlash(u);
      u
    else if StartsWith(href, "/") && StartsWith(base, "http") then
      var u := JoinRoot(base, href);
      if StartsWith(base, "http://") || StartsWith(base, "https://") then
        assert u[..4] == "http";
        NoLeadingSlash(u);
        u
      else
        u
    else
      href
  }

  /**
   * What a card's sub-selectors yielded: the title node's text, the url node's
   * `href` ("" when it has none) and the price node's text; None when the
   * sub-selector is not configured, matched nothing or raised.
   */
  datatype RawCard = RawCard(titleText: Option<string>, hrefAttr: Option<string>, priceText: Option<string>)

  /** A candidate listing: (title, url, price). */
  datatype Item = Item(title: string, url: string, price: Option<real>)

  /** One card of `extract_items`: stripped title, normalised url, parsed price. */
  function ReadCard(card: RawCard, base: string): (it: Item)
    ensures Trimmed(it.title)
    ensures !StartsWith(it.url, "//")
    ensures it.price.Some? ==> card.priceText.Some? && it.price.value >= 0.0
    ensures it.title == if card.titleText.Some? then Strip(card.titleText.value) else ""
    ensures it.url == if card.hrefAttr.Some? then NormaliseHref(Strip(card.hrefAttr.value), base) else ""
    ensures it.price == if card.priceText.Some? then ExtractPriceNumber(card.priceText.value) else None
  {
    var title := if card.titleText.Some? then Strip(card.titleText.value) else "";
    var url := if card.hrefAttr.Some? then NormaliseHref(Strip(card.hrefAttr.value), base) else "";
    var price := if card.priceText.Some? then ExtractPriceNumber(card.priceText.value) else None;
    assert !StartsWith(url, "//");
    Item(title, url, price)
  }

  /** `if title or url`: the keep rule for a card. */
  predicate Kept(it: Item) { it.title != [] || it.url != [] }

  /** Every card read, kept or not. */
  function ReadAll(cards: seq<RawCard>, base: string): (all: seq<Item>)
    ensures |all| == |cards|
  {
    if cards == [] then []
    else ReadAll(cards[..|cards| - 1], base) + [ReadCard(cards[|cards| - 1], base)]
  }

  /** The `i`-th item read is the `i`-th card read. */
  lemma {:induction false} ReadAllAt(cards: seq<RawCard>, base: string, i: nat)
    requires i < |cards|
    ensures ReadAll(cards, base)[i] == ReadCard(cards[i], base)
  {
    var front := cards[..|cards| - 1];
    var last := ReadCard(cards[|cards| - 1], base);
    assert ReadAll(cards, base) == ReadAll(front, base) + [last];
    if i < |front| {
      assert front[i] == cards[i];
      ReadAllAt(front, base, i);
    }
  }

  /** The items that have a title or a url, in their original order. */
  function Filled(items: seq<Item>): (kept: seq<Item>)
    ensures |kept| <= |items|
    ensures forall i :: 0 <= i < |kept| ==> Kept(kept[i])
  {
    if items == [] then []
    else
      var front := Filled(items[..|items| - 1]);
      var it := items[|items| - 1];
      if Kept(it) then front + [it] else front
  }

  /** The items `extract_items` returns: the kept cards, in document order. */
  function KeptItems(cards: seq<RawCard>, base: string): (items: seq<Item>)
    ensures |items| <= |cards|
    ensures forall i :: 0 <= i < |items| ==> items[i].title != [] || items[i].url != []
  {
    Filled(ReadAll(cards, base))
  }

  /** `extract_items`: read each card and append it when it has a title or a url. */
  method ExtractItems(cards: seq<RawCard>, base: string) returns (items: seq<Item>)
    ensures items == KeptItems(cards, base)
  {
    items := [];
    ghost var read: seq<Item> := [];
    for i := 0 to |cards|
      invariant read == ReadAll(cards[..i], base)
      invariant items == Filled(read)
    {
      var it := ReadCard(cards[i], base);
      assert cards[..i + 1][..i] == cards[..i];
      assert (read + [it])[..i] == read;
      read := read + [it];
      if it.title != [] || it.url != [] {
        items := items + [it];
      }
    }
    assert cards[..|cards|] == cards;
  }

  /** Filtering keeps the order: the kept items are a subsequence of all items. */
  lemma {:induction false} FilledInOrder(items: seq<Item>)
    ensures SubsequenceOf(Filled(items), items)
  {
    if items != [] {
      var front, it := items[..|items| - 1], items[|items| - 1];
      FilledInOrder(front);
      assert items == front + [it];
      SubsequenceExtend(Filled(front), front, it);
    }
  }

  /** Filtering drops only blank items. */
  lemma {:induction false} FilledComplete(items: seq<Item>, i: nat)
    requires i < |items| && Kept(items[i])
    ensures items[i] in Filled(items)
  {
    var front := items[..|items| - 1];
    if i < |front| {
      assert front[i] == items[i];
      FilledComplete(front, i);
    }
  }

  /** The kept items are the read cards in document order, with some left out. */
  lemma KeptItemsInOrder(cards: seq<RawCard>, base: string)
    ensures SubsequenceOf(KeptItems(cards, base), ReadAll(cards, base))
  {
    FilledInOrder(ReadAll(cards, base));
  }

  /** Only blank cards are left out: every card with a title or a url is among the items. */
  lemma KeptItemsComplete(cards: seq<RawCard>, base: string, i: nat)
    requires i < |cards| && Kept(ReadCard(cards[i], base))
    ensures ReadCard(cards[i], base) in KeptItems(cards, base)
  {
    ReadAllAt(cards, base, i);
    FilledComplete(ReadAll(cards, base), i);
  }

  // ---------------------------------------------------------------------
  // search_used_market
  // ---------------------------------------------------------------------

  /**
   * A search's filters and triggers: include and exclude keywords, the absolute
   * ceiling `alert_below` and the percent below MSRP `alert_percent_below_msrp`.
   */
  datatype SearchRule = SearchRule(
    includes: seq<string>,
    excludes: seq<string>,
    alertBelow: Option<real>,
    alertPercent: Option<real>)

  /** Why a listing fired: at or below the ceiling, or this many percent below MSRP. */
  datatype Reason = AtOrBelow(ceiling: real) | BelowMsrp(drop: real)

  datatype Match = Match(item: Item, reason: Reason)

  /** Python truthiness of an optional number: present and non-zero. */
  predicate Truthy(x: Option<real>) { x.Some? && x.value != 0.0 }

  /** The url is empty (never deduplicated) or was not alerted on before. */
  predicate Unseen(it: Item, seen: set<string>) { it.url == [] || it.url !in seen }

  predicate FiresCeiling(it: Item, rule: SearchRule)
  {
    Truthy(rule.alertBelow) && it.price.Some? && it.price.value <= rule.alertBelow.value
  }

  predicate FiresMsrp(it: Item, rule: SearchRule, msrp: Option<real>)
  {
    Truthy(msrp) && Truthy(rule.alertPercent) && it.price.Some? &&
    PctDrop(msrp.value, it.price.value) >= rule.alertPercent.value
  }

  /**
   * One pass of the candidate loop: keyword filter, then the seen set, then the
   * ceiling rule, then the MSRP rule; a listing is a match exactly when it passes
   * both filters and one rule fires, and the ceiling rule has precedence.
   */
  function Classify(it: Item, seen: set<string>, rule: SearchRule, msrp: Option<real>): (r: Option<Match>)
    ensures r.Some? <==>
      TextOk(it.title, rule.includes, rule.excludes) && Unseen(it, seen) &&
      (FiresCeiling(it, rule) || FiresMsrp(it, rule, msrp))
    ensures r.Some? ==> r.value.item == it
    ensures r.Some? ==> (r.value.reason.AtOrBelow? <==> FiresCeiling(it, rule))
    ensures r.Some? && r.value.reason.AtOrBelow? ==> r.value.reason.ceiling == rule.alertBelow.value
    ensures r.Some? && r.value.reason.BelowMsrp? ==>
      r.value.reason.drop == PctDrop(msrp.value, it.price.value) >= rule.alertPercent.value
  {
    if !TextOk(it.title, rule.includes, rule.excludes) then None
    else if it.url != [] && it.url in seen then None
    else if Truthy(rule.alertBelow) && it.price.Some? && it.price.value <= rule.alertBelow.value then
      Some(Match(it, AtOrBelow(rule.alertBelow.value)))
    else if Truthy(msrp) && Truthy(rule.alertPercent) && it.price.Some? then
      var drop := PctDrop(msrp.value, it.price.value);
      if drop >= rule.alertPercent.value then Some(Match(it, BelowMsrp(drop))) else None
    else None
  }

  /** The results of `search_used_market`: the classification of each candidate that matched, in order. */
  function MatchesOf(cands: seq<Item>, seen: set<string>, rule: SearchRule, msrp: Option<real>): (ms: seq<Match>)
    ensures |ms| <= |cands|
    ensures forall i :: 0 <= i < |ms| ==> Unseen(ms[i].item, seen) && TextOk(ms[i].item.title, rule.includes, rule.excludes)
  {
    if cands == [] then []
    else
      var front := MatchesOf(cands[..|cands| - 1], seen, rule, msrp);
      match Classify(cands[|cands| - 1], seen, rule, msrp)
      case Some(m) => front + [m]
      case None => front
  }

  /** `search_used_market` after the fetch: the candidate loop with its `continue`s. */
  method SearchUsedMarket(cands: seq<Item>, seen: set<string>, rule: SearchRule, msrp: Option<real>)
    returns (results: seq<Match>)
    ensures results == MatchesOf(cands, seen, rule, msrp)
  {
    results := [];
    for i := 0 to |cands|
      invariant results == MatchesOf(cands[..i], seen, rule, msrp)
    {
      assert cands[..i + 1][..i] == cands[..i];
      var it := cands[i];
      if !TextOk(it.title, rule.includes, rule.excludes) {
        continue;
      }
      if it.url != [] && it.url in seen {
        continue;
      }
      var trigger := false;
      var reason := AtOrBelow(0.0);
      if Truthy(rule.alertBelow) && it.price.Some? && it.price.value <= rule.alertBelow.value {
        trigger := true;
        reason := AtOrBelow(rule.alertBelow.value);
      } else if Truthy(msrp) && Truthy(rule.alertPercent) && it.price.Some? {
        var drop := PctDrop(msrp.value, it.price.value);
        if drop >= rule.alertPercent.value {
          trigger := true;
          reason := BelowMsrp(drop);
        }
      }
      if trigger {
        results := results + [Match(it, reason)];
      }
    }
    assert cands[..|cands|] == cands;
  }

  /** The items the matches were made from. */
  function MatchedItems(ms: seq<Match>): (items: seq<Item>)
    ensures |items| == |ms|
    ensures forall i :: 0 <= i < |ms| ==> items[i] == ms[i].item
  {
    seq(|ms|, i requires 0 <= i < |ms| => ms[i].item)
  }

  /**
   * The matches are exactly the candidates `Classify` accepts: each result is the
   * classification of a candidate, every accepted candidate is among the
   * results, and the results keep the candidates' order.
   */
  lemma {:induction false} MatchesSound(cands: seq<Item>, seen: set<string>, rule: SearchRule, msrp: Option<real>)
    ensures forall m :: m in MatchesOf(cands, seen, rule, msrp) ==> m.item in cands && Classify(m.item, seen, rule, msrp) == Some(m)
  {
    if cands != [] {
      var front, last := cands[..|cands| - 1], cands[|cands| - 1];
      MatchesSound(front, seen, rule, msrp);
      assert forall x :: x in front ==> x in cands;
    }
  }

  lemma {:induction false} MatchesComplete(cands: seq<Item>, seen: set<string>, rule: SearchRule, msrp: Option<real>)
    ensures forall i :: 0 <= i < |cands| && Classify(cands[i], seen, rule, msrp).Some? ==>
      Classify(cands[i], seen, rule, msrp).value in MatchesOf(cands, seen, rule, msrp)
  {
    if cands != [] {
      var front, last := cands[..|cands| - 1], cands[|cands| - 1];
      MatchesComplete(front, seen, rule, msrp);
      var ms, all := MatchesOf(front, seen, rule, msrp), MatchesOf(cands, seen, rule, msrp);
      var c := Classify(last, seen, rule, msrp);
      assert all == if c.Some? then ms + [c.value] else ms;
      forall i | 0 <= i < |cands| && Classify(cands[i], seen, rule, msrp).Some?
        ensures Classify(cands[i], seen, rule, msrp).value in all
      {
        if i < |front| {
          assert cands[i] == front[i];
        } else {
          assert cands[i] == last;
        }
      }
    }
  }

  lemma {:induction false} MatchesInOrder(cands: seq<Item>, seen: set<string>, rule: SearchRule, msrp: Option<real>)
    ensures SubsequenceOf(MatchedItems(MatchesOf(cands, seen, rule, msrp)), cands)
  {
    if cands != [] {
      var front, last := cands[..|cands| - 1], cands[|cands| - 1];
      MatchesInOrder(front, seen, rule, msrp);
      var ms, all := MatchesOf(front, seen, rule, msrp), MatchesOf(cands, seen, rule, msrp);
      var c := Classify(last, seen, rule, msrp);
      assert all == if c.Some? then ms + [c.value] else ms;
      assert cands == front + [last];
      var items := MatchedItems(ms);
      SubsequenceExtend(items, front, last);
      if c.Some? {
        assert c.value.item == last;
        assert MatchedItems(all) == items + [last];
      } else {
        assert MatchedItems(all) == items;
      }
    }
  }

  lemma MatchesExact(cands: seq<Item>, seen: set<string>, rule: SearchRule, msrp: Option<real>)
    ensures forall m :: m in MatchesOf(cands, seen, rule, msrp) ==> m.item in cands && Classify(m.item, seen, rule, msrp) == Some(m)
    ensures forall i :: 0 <= i < |cands| && Classify(cands[i], seen, rule, msrp).Some? ==>
      Classify(cands[i], seen, rule, msrp).value in MatchesOf(cands, seen, rule, msrp)
    ensures SubsequenceOf(MatchedItems(MatchesOf(cands, seen, rule, msrp)), cands)
  {
    MatchesSound(cands, seen, rule, msrp);
    MatchesComplete(cands, seen, rule, msrp);
    MatchesInOrder(cands, seen, rule, msrp);
  }

  /** A listing without a url is never held back by the seen set. */
  lemma EmptyUrlNeverDeduped(it: Item, seen: set<string>, rule: SearchRule, msrp: Option<real>)
    requires it.url == []
    ensures Classify(it, seen, rule, msrp) == Classify(it, {}, rule, msrp)
  {
  }

  /**
   * The seen set is not updated inside the loop: two candidates with the same
   * url in one page both match.
   */
  lemma RepeatedUrlMatchesTwice(it: Item, seen: set<string>, rule: SearchRule, msrp: Option<real>)
    requires Classify(it, seen, rule, msrp).Some?
    ensures |MatchesOf([it, it], seen, rule, msrp)| == 2
  {
    assert [it, it][..1] == [it];
    assert [it][..0] == [];
  }
}
