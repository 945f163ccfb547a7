/**
 * The persisted state of price_tracker.py and the way `main` evolves it: per
 * product a baseline and a capped price history, per search a capped, sorted
 * list of urls already alerted on.  Reading and writing the JSON file is not
 * modelled; the ledger is the dictionary `main` mutates in between.
 */
module StateLedger {
  import opened Wrappers
  import opened Seqs
  import opened PriceParser
  import opened ProductPrice
  import opened Listings

  /** History entries kept per product (`hist[-300:]`). */
  const HistoryCap: nat := 300
  /** Urls kept per search (`sorted(...)[-2000:]`). */
  const SeenCap: nat := 2000
  /** The drop threshold when neither the product nor the configuration sets one. */
  const DefaultDropPercent: real := 10.0

  /** One history sample `{"t": now, "price": price}`. */
  datatype Sample = Sample(t: int, price: real)

  /** `state["products"][pid]`; a field is None until the first successful reading writes it. */
  datatype ProductEntry = ProductEntry(
    baseline: Option<real>,
    history: seq<Sample>,
    lastPrice: Option<real>,
    url: Option<string>,
    name: Option<string>)

  /** The empty record `setdefault(pid, {})` creates. */
  const NewProduct := ProductEntry(None, [], None, None, None)

  /** `state["searches"][sid]`: the stored `seen` list, None until the first completed search. */
  datatype SearchEntry = SearchEntry(seen: Option<seq<string>>)

  const NewSearch := SearchEntry(None)

  /** A configured retailer product: `id`, `url`, `name`, a numeric `baseline`, `drop_percent`. */
  datatype ProductConfig = ProductConfig(
    id: Option<string>,
    url: string,
    name: Option<string>,
    baseline: Option<real>,
    dropPercent: Option<real>)

  /** A configured used-market search: `id`, `url` and its filters and triggers. */
  datatype SearchConfig = SearchConfig(id: Option<string>, url: string, rule: SearchRule)

  /** What a retailer alert reports (its subject and body are formatted from these). */
  datatype RetailAlert = RetailAlert(id: string, name: string, price: real, baseline: real, drop: real, threshold: real)

  /** `cfg.get("id") or cfg["url"]`: a non-empty configured id, else the url. */
  function ConfigKey(id: Option<string>, url: string): (k: string)
    ensures k == url || (id.Some? && k == id.value)
    ensures id.Some? && id.value != [] ==> k == id.value
    ensures k == [] <==> url == [] && (id.None? || id.value == [])
  {
    if id.Some? && id.value != [] then id.value else url
  }

  /** The key of a product's record, `prod.get("id") or prod["url"]`. */
  function ProductId(p: ProductConfig): (id: string)
    ensures id == p.url || (p.id.Some? && id == p.id.value)
    ensures p.id.Some? && p.id.value != [] ==> id == p.id.value
    ensures id == [] <==> p.url == [] && (p.id.None? || p.id.value == [])
  {
    ConfigKey(p.id, p.url)
  }

  /** The key of a search's record, `scfg.get("id") or scfg["url"]`. */
  function SearchId(s: SearchConfig): (id: string)
    ensures id == s.url || (s.id.Some? && id == s.id.value)
    ensures s.id.Some? && s.id.value != [] ==> id == s.id.value
    ensures id == [] <==> s.url == [] && (s.id.None? || s.id.value == [])
  {
    ConfigKey(s.id, s.url)
  }

  /** `prod.get("name", pid)`: a configured name, even an empty one, else the product id. */
  function DisplayName(p: ProductConfig): (n: string)
    ensures p.name.Some? ==> n == p.name.value
    ensures p.name.None? ==> n == ProductId(p)
  {
    p.name.GetOr(ProductId(p))
  }

  /** `prod.get("drop_percent", cfg.get("default_drop_percent", 10))`. */
  function DropNeeded(p: ProductConfig, defaultDrop: Option<real>): (d: real)
    ensures p.dropPercent.Some? ==> d == p.dropPercent.value
    ensures p.dropPercent.None? && defaultDrop.Some? ==> d == defaultDrop.value
    ensures p.dropPercent.None? && defaultDrop.None? ==> d == 10.0
  {
    p.dropPercent.GetOr(defaultDrop.GetOr(DefaultDropPercent))
  }

  /** The configured baseline, else the stored one, else the price just read. */
  function EffectiveBaseline(configured: Option<real>, stored: Option<real>, price: real): (b: real)
    ensures configured.Some? ==> b == configured.value
    ensures configured.None? && stored.Some? ==> b == stored.value
    ensures configured.None? && stored.None? ==> b == price
    ensures (configured.Some? ==> configured.value >= 0.0) && (stored.Some? ==> stored.value >= 0.0) && price >= 0.0 ==> b >= 0.0
  {
    configured.GetOr(stored.GetOr(price))
  }

  /** The product's record after a successful reading of `price` at time `now`. */
  function Recorded(e: ProductEntry, p: ProductConfig, price: real, now: int): (r: ProductEntry)
    ensures r.baseline == Some(EffectiveBaseline(p.baseline, e.baseline, price))
    ensures 0 < |r.history| <= HistoryCap && r.history[|r.history| - 1] == Sample(now, price)
    ensures r.lastPrice == Some(price) && r.url == Some(p.url) && r.name == Some(DisplayName(p))
  {
    e.(baseline := Some(EffectiveBaseline(p.baseline, e.baseline, price)),
       history := KeepLast(e.history + [Sample(now, price)], HistoryCap),
       lastPrice := Some(price),
       url := Some(p.url),
       name := Some(DisplayName(p)))
  }

  /** The retailer alert condition `drop_now >= drop_needed`. */
  predicate Fires(e: ProductEntry, p: ProductConfig, price: real, defaultDrop: Option<real>)
    // against a baseline that is not positive the drop is 0
    ensures EffectiveBaseline(p.baseline, e.baseline, price) <= 0.0 ==>
      (Fires(e, p, price, defaultDrop) <==> DropNeeded(p, defaultDrop) <= 0.0)
  {
    PctDrop(EffectiveBaseline(p.baseline, e.baseline, price), price) >= DropNeeded(p, defaultDrop)
  }

  /** Successive successful readings of one product, oldest first. */
  function RecordAll(e: ProductEntry, p: ProductConfig, samples: seq<Sample>): (r: ProductEntry)
    ensures samples == [] ==> r == e
    ensures samples != [] ==>
      r.lastPrice == Some(samples[|samples| - 1].price) && r.url == Some(p.url) && r.name == Some(DisplayName(p))
    decreases |samples|
  {
    if samples == [] then e
    else RecordAll(Recorded(e, p, samples[0].price, samples[0].t), p, samples[1..])
  }

  /** The first reading of a run of readings, unfolded on the history. */
  lemma RecordStep(e: ProductEntry, p: ProductConfig, samples: seq<Sample>)
    requires samples != []
    ensures Recorded(e, p, samples[0].price, samples[0].t).history == KeepLast(e.history + [samples[0]], HistoryCap)
    ensures RecordAll(e, p, samples).history == RecordAll(Recorded(e, p, samples[0].price, samples[0].t), p, samples[1..]).history
  {
    assert Sample(samples[0].t, samples[0].price) == samples[0];
  }

  /**
   * However many runs append to it, the history is the last 300 samples, oldest
   * first (a loaded history is cut only once something is appended to it).
   */
  lemma {:induction false} HistoryKeepsLast(e: ProductEntry, p: ProductConfig, samples: seq<Sample>)
    ensures samples != [] ==> RecordAll(e, p, samples).history == KeepLast(e.history + samples, HistoryCap)
  {
    RecordAllHistory(e, p, samples);
    HistoryAfterKeepsLast(e.history, samples);
  }

  /** The history after a run of readings, each appended and cut to the last 300. */
  function HistoryAfter(h: seq<Sample>, samples: seq<Sample>): seq<Sample>
    decreases |samples|
  {
    if samples == [] then h else HistoryAfter(KeepLast(h + [samples[0]], HistoryCap), samples[1..])
  }

  /** A run of readings leaves the history that `HistoryAfter` gives. */
  lemma {:induction false} RecordAllHistory(e: ProductEntry, p: ProductConfig, samples: seq<Sample>)
    ensures RecordAll(e, p, samples).history == HistoryAfter(e.history, samples)
    decreases |samples|
  {
    if samples != [] {
      RecordStep(e, p, samples);
      RecordAllHistory(Recorded(e, p, samples[0].price, samples[0].t), p, samples[1..]);
    }
  }

  /** Appending and cutting one sample at a time is appending all and cutting once. */
  lemma {:induction false} HistoryAfterKeepsLast(h: seq<Sample>, samples: seq<Sample>)
    ensures samples != [] ==> HistoryAfter(h, samples) == KeepLast(h + samples, HistoryCap)
    decreases |samples|
  {
    if samples != [] {
      var s0, rest := samples[0], samples[1..];
      if rest == [] {
        assert h + [s0] == h + samples;
      } else {
        HistoryAfterKeepsLast(KeepLast(h + [s0], HistoryCap), rest);
        KeepLastAppend(h + [s0], rest, HistoryCap);
        assert h + [s0] + rest == h + samples;
      }
    }
  }

  /** 310 readings of a new product leave exactly the latest 300, in order. */
  lemma HistoryCapExample(p: ProductConfig, samples: seq<Sample>)
    requires |samples| == 310
    ensures RecordAll(NewProduct, p, samples).history == samples[10..]
  {
    HistoryKeepsLast(NewProduct, p, samples);
    assert [] + samples == samples;
  }

  /**
   * Where the baseline comes from: a configured baseline is reapplied on every
   * reading; without one, a stored baseline is kept, and otherwise the first
   * reading becomes it. Alerts never reset it.
   */
  lemma {:induction false} BaselineSticky(e: ProductEntry, p: ProductConfig, samples: seq<Sample>)
    ensures p.baseline.None? && e.baseline.Some? ==> RecordAll(e, p, samples).baseline == e.baseline
    ensures p.baseline.None? && e.baseline.None? && samples != [] ==>
      RecordAll(e, p, samples).baseline == Some(samples[0].price)
    ensures p.baseline.Some? && samples != [] ==> RecordAll(e, p, samples).baseline == p.baseline
    decreases |samples|
  {
    if samples != [] {
      var e1 := Recorded(e, p, samples[0].price, samples[0].t);
      BaselineSticky(e1, p, samples[1..]);
    }
  }

  /** Without a configured or stored baseline the first reading is its own baseline: it fires only for a threshold of 0 or less. */
  lemma FirstReadingFiresOnlyForNoThreshold(p: ProductConfig, price: real, defaultDrop: Option<real>)
    requires p.baseline.None?
    ensures Fires(NewProduct, p, price, defaultDrop) <==> DropNeeded(p, defaultDrop) <= 0.0
  {
  }

  /** Against a positive baseline the alert fires exactly when the price is at most `100 - threshold` percent of it. */
  lemma FiresIffPriceLowEnough(e: ProductEntry, p: ProductConfig, price: real, defaultDrop: Option<real>)
    requires EffectiveBaseline(p.baseline, e.baseline, price) > 0.0
    ensures Fires(e, p, price, defaultDrop) <==>
      price * 100.0 <= EffectiveBaseline(p.baseline, e.baseline, price) * (100.0 - DropNeeded(p, defaultDrop))
  {
    DropMeetsThreshold(EffectiveBaseline(p.baseline, e.baseline, price), price, DropNeeded(p, defaultDrop));
  }

  /** Baseline 1000 and the default 10% threshold: 899 fires, 901 does not. */
  lemma RetailTriggerExample(e: ProductEntry, p: ProductConfig)
    requires e.baseline == Some(1000.0) && p.baseline.None? && p.dropPercent.None?
    ensures Fires(e, p, 899.0, None)
    ensures !Fires(e, p, 901.0, None)
  {
  }

  /** First reading of 500 without a configured baseline: it becomes the baseline and does not alert. */
  lemma FirstReadingOf500(p: ProductConfig, t1: int)
    requires p.baseline.None? && p.dropPercent.None?
    ensures Recorded(NewProduct, p, 500.0, t1).baseline == Some(500.0)
    ensures Recorded(NewProduct, p, 500.0, t1).history == [Sample(t1, 500.0)]
    ensures !Fires(NewProduct, p, 500.0, None)
  {
    assert PctDrop(500.0, 500.0) == 0.0;
  }

  /** A later reading of 440 against baseline 500 is a 12% drop: it alerts and the baseline stays. */
  lemma SecondReadingOf440(e: ProductEntry, p: ProductConfig, t1: int, t2: int)
    requires p.baseline.None? && p.dropPercent.None?
    requires e.baseline == Some(500.0) && e.history == [Sample(t1, 500.0)]
    ensures PctDrop(500.0, 440.0) == 12.0
    ensures Fires(e, p, 440.0, None)
    ensures Recorded(e, p, 440.0, t2).baseline == Some(500.0)
    ensures Recorded(e, p, 440.0, t2).history == [Sample(t1, 500.0), Sample(t2, 440.0)]
  {
    assert PctDrop(500.0, 440.0) == 12.0;
  }

  /**
   * A product without a configured baseline first read at 500 gets baseline 500
   * and no alert; read at 440 next, it fires (12%) and the baseline stays 500.
   */
  lemma TwoRunScenario(p: ProductConfig, t1: int, t2: int)
    requires p.baseline.None? && p.dropPercent.None?
    ensures var e1 := Recorded(NewProduct, p, 500.0, t1);
      e1.baseline == Some(500.0) && !Fires(NewProduct, p, 500.0, None) &&
      Fires(e1, p, 440.0, None) &&
      Recorded(e1, p, 440.0, t2).baseline == Some(500.0) &&
      Recorded(e1, p, 440.0, t2).history == [Sample(t1, 500.0), Sample(t2, 440.0)]
  {
    FirstReadingOf500(p, t1);
    SecondReadingOf440(Recorded(NewProduct, p, 500.0, t1), p, t1, t2);
  }

  // ---------------------------------------------------------------------
  // The seen set of a search
  // ---------------------------------------------------------------------

  /** The non-empty urls among the matches (`if m.get("url"): seen.add(m["url"])`). */
  function MatchedUrls(ms: seq<Match>): (u: set<string>)
    ensures [] !in u
    ensures forall i :: 0 <= i < |ms| && ms[i].item.url != [] ==> ms[i].item.url in u
    ensures forall x :: x in u ==> exists i :: 0 <= i < |ms| && ms[i].item.url == x
  {
    set m | m in ms && m.item.url != [] :: m.item.url
  }

  /** The seen set after a search: the stored list as a set, plus the matched urls. */
  function SeenAfter(stored: Option<seq<string>>, ms: seq<Match>): (s: set<string>)
    ensures Elements(stored.GetOr([])) <= s
    ensures forall i :: 0 <= i < |ms| && ms[i].item.url != [] ==> ms[i].item.url in s
    // the empty url is never added
    ensures [] in s ==> [] in Elements(stored.GetOr([]))
    // and nothing else is
    ensures forall x :: x in s ==> x in Elements(stored.GetOr([])) || x in MatchedUrls(ms)
  {
    Elements(stored.GetOr([])) + MatchedUrls(ms)
  }

  /**
   * `r` is `sorted(list(s))[-2000:]`: sorted, drawn from `s`, as long as `s` up to
   * the cap, and every url left out sorts before every url kept.
   */
  ghost predicate IsStoredSeen(r: seq<string>, s: set<string>)
  {
    StrictlySorted(r) && Elements(r) <= s &&
    |r| == (if |s| <= SeenCap then |s| else SeenCap) &&
    forall x, y :: x in s && x !in r && y in r ==> Below(x, y)
  }


  /** The last `n` of a sorted list are sorted. */
  lemma KeepLastSorted(sorted: seq<string>, n: nat)
    requires StrictlySorted(sorted)
    ensures StrictlySorted(KeepLast(sorted, n))
  {
    var r := KeepLast(sorted, n);
    var off := |sorted| - |r|;
    forall i, j | 0 <= i < j < |r| ensures Below(r[i], r[j]) {
      assert r[i] == sorted[off + i] && r[j] == sorted[off + j];
      assert Below(sorted[off + i], sorted[off + j]);
    }
  }

  /** The cut keeps a whole suffix. */
  lemma KeptSuffix(sorted: seq<string>, n: nat)
    ensures forall j :: |sorted| - |KeepLast(sorted, n)| <= j < |sorted| ==> sorted[j] in KeepLast(sorted, n)
  {
    var r := KeepLast(sorted, n);
    var off := |sorted| - |r|;
    forall j | off <= j < |sorted| ensures sorted[j] in r {
      assert r[j - off] == sorted[j];
    }
  }

  /** Whatever the cut drops from a sorted list sorts before whatever it keeps. */
  lemma KeepLastDropsSmallest(sorted: seq<string>, n: nat)
    requires StrictlySorted(sorted)
    ensures forall x, y :: x in sorted && x !in KeepLast(sorted, n) && y in KeepLast(sorted, n) ==> Below(x, y)
  {
    var r := KeepLast(sorted, n);
    var off := |sorted| - |r|;
    KeptSuffix(sorted, n);
    forall x, y | x in sorted && x !in r && y in r ensures Below(x, y) {
      var i :| 0 <= i < |sorted| && sorted[i] == x;
      var k :| 0 <= k < |r| && r[k] == y;
      assert i < off;
      assert y == sorted[off + k];
      assert Below(sorted[i], sorted[off + k]);
    }
  }

  /** The list `sorted(list(s))[-2000:]` denotes. */
  ghost function StoredSeenOf(s: set<string>): (r: seq<string>)
    ensures IsStoredSeen(r, s)
  {
    var sorted := SortedOf(s);
    SortedCardinality(sorted);
    KeepLastSorted(sorted, SeenCap);
    KeepLastDropsSmallest(sorted, SeenCap);
    assert forall x :: x in KeepLast(sorted, SeenCap) ==> x in sorted;
    KeepLast(sorted, SeenCap)
  }

  /** `sorted(list(seen))[-2000:]`. */
  method StoreSeen(s: set<string>) returns (r: seq<string>)
    ensures IsStoredSeen(r, s)
    ensures r == StoredSeenOf(s)
  {
    var sorted := SortedList(s);
    r := KeepLast(sorted, SeenCap);
    KeepLastSorted(sorted, SeenCap);
    KeepLastDropsSmallest(sorted, SeenCap);
    assert forall x :: x in r ==> x in sorted;
    StoredSeenUnique(r, StoredSeenOf(s), s);
  }

  /**
   * Above the cap the least url of the seen set is evicted, so a listing with
   * that url is judged afterwards as if it had never been seen.
   */
  lemma EvictionForgets(r: seq<string>, s: set<string>, x: string, it: Item, rule: SearchRule, msrp: Option<real>)
    requires IsStoredSeen(r, s) && |s| > SeenCap
    requires x in s && forall y :: y in s && y != x ==> Below(x, y)
    requires it.url == x
    ensures x !in Elements(r)
    ensures Classify(it, Elements(r), rule, msrp) == Classify(it, {}, rule, msrp)
  {
    SortedCardinality(r);
    CardSplit(s, Elements(r));
    assert s * Elements(r) == Elements(r);
    assert |s - Elements(r)| > 0;
    var z :| z in s - Elements(r);
    if z != x {
      assert Below(x, z);
      BelowAsymmetric(x, z);
      assert x in Elements(r) ==> Below(z, x);
    }
  }

  /** How a set splits against another. */
  lemma CardSplit(a: set<string>, b: set<string>)
    ensures |a| == |a * b| + |a - b|
  {
    assert a == (a * b) + (a - b);
  }

  /** A sorted list without its head holds the other elements. */
  lemma SortedTail(a: seq<string>)
    requires StrictlySorted(a) && a != []
    ensures StrictlySorted(a[1..])
    ensures Elements(a[1..]) == Elements(a) - {a[0]}
  {
    assert Elements(a) == {a[0]} + Elements(a[1..]) by {
      assert a == [a[0]] + a[1..];
    }
    forall k | 1 <= k < |a| ensures a[k] != a[0] {
      assert Below(a[0], a[k]);
      BelowIrreflexive(a[0]);
    }
    assert a[0] !in Elements(a[1..]);
  }

  /** Two sorted lists with the same elements start with the same, least, element. */
  lemma SortedSameHead(a: seq<string>, b: seq<string>)
    requires StrictlySorted(a) && StrictlySorted(b) && a != [] && b != [] && Elements(a) == Elements(b)
    ensures a[0] == b[0]
  {
    assert a[0] in Elements(b) && b[0] in Elements(a);
    var j :| 0 <= j < |b| && b[j] == a[0];
    var i :| 0 <= i < |a| && a[i] == b[0];
    assert j == 0 || Below(b[0], a[0]);
    assert i == 0 || Below(a[0], b[0]);
    if i != 0 && j != 0 {
      BelowAsymmetric(a[0], b[0]);
    }
  }

  /** Two sorted lists with the same elements are the same list. */
  lemma {:induction false} SortedSameElements(a: seq<string>, b: seq<string>)
    requires StrictlySorted(a) && StrictlySorted(b) && Elements(a) == Elements(b)
    ensures a == b
  {
    SortedCardinality(a);
    SortedCardinality(b);
    if a != [] {
      SortedSameHead(a, b);
      SortedTail(a);
      SortedTail(b);
      SortedSameElements(a[1..], b[1..]);
      assert a == [a[0]] + a[1..] && b == [b[0]] + b[1..];
    }
  }

  /** The stored list is determined by the seen set: persisting is deterministic. */
  lemma StoredSeenUnique(r1: seq<string>, r2: seq<string>, s: set<string>)
    requires IsStoredSeen(r1, s) && IsStoredSeen(r2, s)
    ensures r1 == r2
  {
    var e1, e2 := Elements(r1), Elements(r2);
    SortedCardinality(r1);
    SortedCardinality(r2);
    CardSplit(e1, e2);
    CardSplit(e2, e1);
    assert e1 * e2 == e2 * e1;
    forall x, z | x in e1 - e2 && z in e2 - e1 ensures Below(x, z) && Below(z, x) {
    }
    forall x, z | Below(x, z) ensures !Below(z, x) {
      BelowAsymmetric(x, z);
    }
    assert e1 - e2 == {};
    assert e1 == e2;
    SortedSameElements(r1, r2);
  }

  /** Below the cap nothing is evicted: the stored list holds the whole seen set. */
  lemma StoredSeenComplete(r: seq<string>, s: set<string>)
    requires IsStoredSeen(r, s) && |s| <= SeenCap
    ensures Elements(r) == s
  {
    SortedCardinality(r);
    CardSplit(s, Elements(r));
    assert s * Elements(r) == Elements(r);
    assert s - Elements(r) == {};
  }

  /**
   * Deduplication across runs: once a search's matches are persisted (below the
   * cap), the same candidates searched again yield no match with a url; only
   * listings without a url can alert again.
   */
  lemma DedupAcrossRuns(cands: seq<Item>, stored: Option<seq<string>>, rule: SearchRule, msrp: Option<real>, r: seq<string>)
    requires IsStoredSeen(r, SeenAfter(stored, MatchesOf(cands, Elements(stored.GetOr([])), rule, msrp)))
    requires |SeenAfter(stored, MatchesOf(cands, Elements(stored.GetOr([])), rule, msrp))| <= SeenCap
    ensures forall m :: m in MatchesOf(cands, Elements(r), rule, msrp) ==> m.item.url == []
  {
    var seen0 := Elements(stored.GetOr([]));
    var first := MatchesOf(cands, seen0, rule, msrp);
    var s := SeenAfter(stored, first);
    StoredSeenComplete(r, s);
    MatchesExact(cands, seen0, rule, msrp);
    MatchesExact(cands, s, rule, msrp);
    forall m | m in MatchesOf(cands, s, rule, msrp) ensures m.item.url == [] {
      var i :| 0 <= i < |cands| && cands[i] == m.item;
      assert m.item.url != [] ==> Classify(m.item, seen0, rule, msrp) == Some(m);
      assert m.item.url != [] ==> m in first;
      assert m.item.url != [] ==> m.item.url in MatchedUrls(first);
    }
  }

  /** `seen` with the non-empty urls of `ms` added, one match at a time. */
  method AddMatchedUrls(seen: set<string>, ms: seq<Match>) returns (r: set<string>)
    ensures r == seen + MatchedUrls(ms)
  {
    r := seen;
    for i := 0 to |ms|
      invariant r == seen + MatchedUrls(ms[..i])
    {
      assert MatchedUrls(ms[..i + 1]) == MatchedUrls(ms[..i]) + (if ms[i].item.url != [] then {ms[i].item.url} else {}) by {
        assert ms[..i + 1] == ms[..i] + [ms[i]];
      }
      if ms[i].item.url != [] {
        r := r + {ms[i].item.url};
      }
    }
    assert ms[..|ms|] == ms;
  }

  /** A match a search may report: it passes the keyword filter and one of the rules fires. */
  predicate Reportable(m: Match, rule: SearchRule, msrp: Option<real>)
  {
    TextOk(m.item.title, rule.includes, rule.excludes) && (FiresCeiling(m.item, rule) || FiresMsrp(m.item, rule, msrp))
  }

  /** Every match the candidate loop reports is reportable, whatever was seen before. */
  lemma MatchesReportable(cands: seq<Item>, seen: set<string>, rule: SearchRule, msrp: Option<real>)
    ensures forall m :: m in MatchesOf(cands, seen, rule, msrp) ==> Reportable(m, rule, msrp)
  {
    MatchesExact(cands, seen, rule, msrp);
  }

  /** Every match reported for each search so far is reportable under that search's rule. */
  predicate AllReportable(found: seq<seq<Match>>, runs: seq<SearchRun>, msrp: Option<real>)
  {
    |found| <= |runs| &&
    forall j :: 0 <= j < |found| ==> forall m :: m in found[j] ==> Reportable(m, runs[j].config.rule, msrp)
  }

  lemma AllReportableExtend(found: seq<seq<Match>>, runs: seq<SearchRun>, msrp: Option<real>, ms: seq<Match>)
    requires AllReportable(found, runs, msrp) && |found| < |runs|
    requires forall m :: m in ms ==> Reportable(m, runs[|found|].config.rule, msrp)
    ensures AllReportable(found + [ms], runs, msrp)
  {
    assert forall j :: 0 <= j < |found| ==> (found + [ms])[j] == found[j];
  }

  // ---------------------------------------------------------------------
  // The ledger `main` mutates
  // ---------------------------------------------------------------------

  /** A product's stored record keeps the invariants of the state file. */
  ghost predicate EntryValid(e: ProductEntry)
  {
    (e.baseline.Some? ==> e.baseline.value >= 0.0) &&
    (e.lastPrice.Some? ==> e.lastPrice.value >= 0.0) &&
    |e.history| <= HistoryCap &&
    forall i :: 0 <= i < |e.history| ==> e.history[i].price >= 0.0
  }

  /** A stored seen list is sorted and within its cap. */
  ghost predicate SeenValid(e: SearchEntry)
  {
    e.seen.Some? ==> StrictlySorted(e.seen.value) && |e.seen.value| <= SeenCap
  }

  ghost predicate ProductsValid(m: map<string, ProductEntry>)
  {
    forall k :: k in m ==> EntryValid(m[k])
  }

  ghost predicate SearchesValid(m: map<string, SearchEntry>)
  {
    forall k :: k in m ==> SeenValid(m[k])
  }

  /** A reading that is not negative, against a baseline that is not negative, keeps a record valid. */
  lemma RecordedValid(e: ProductEntry, p: ProductConfig, price: real, now: int)
    requires EntryValid(e) && price >= 0.0 && (p.baseline.Some? ==> p.baseline.value >= 0.0)
    ensures EntryValid(Recorded(e, p, price, now))
  {
    var h := e.history + [Sample(now, price)];
    assert forall i :: 0 <= i < |h| ==> h[i].price >= 0.0;
  }

  lemma ProductsValidUpdate(m: map<string, ProductEntry>, k: string, e: ProductEntry)
    requires ProductsValid(m) && EntryValid(e)
    ensures ProductsValid(m[k := e])
  {
  }

  lemma SearchesValidUpdate(m: map<string, SearchEntry>, k: string, e: SearchEntry)
    requires SearchesValid(m) && SeenValid(e)
    ensures SearchesValid(m[k := e])
  {
  }

  function ProductOr(m: map<string, ProductEntry>, pid: string): ProductEntry
  {
    if pid in m then m[pid] else NewProduct
  }

  function SearchOr(m: map<string, SearchEntry>, sid: string): SearchEntry
  {
    if sid in m then m[sid] else NewSearch
  }

  /** The products map after one product's turn in the retailer loop (`price` None: no reading). */
  function AfterReading(m: map<string, ProductEntry>, p: ProductConfig, price: Option<real>, now: int): (m': map<string, ProductEntry>)
    ensures m'.Keys == m.Keys + {ProductId(p)}
    ensures forall k :: k in m && k != ProductId(p) ==> m'[k] == m[k]
  {
    var e := ProductOr(m, ProductId(p));
    m[ProductId(p) := if price.Some? then Recorded(e, p, price.value, now) else e]
  }

  /** The searches map after one search's turn in the used-market loop (`matches` None: the search raised). */
  ghost function AfterSearch(m: map<string, SearchEntry>, sc: SearchConfig, matches: Option<seq<Match>>): (m': map<string, SearchEntry>)
    ensures m'.Keys == m.Keys + {SearchId(sc)}
    ensures forall k :: k in m && k != SearchId(sc) ==> m'[k] == m[k]
  {
    var e := SearchOr(m, SearchId(sc));
    m[SearchId(sc) := if matches.Some? then SearchEntry(Some(StoredSeenOf(SeenAfter(e.seen, matches.value)))) else e]
  }

  /** The alert a reading raises against the stored record `e`, if any. */
  function AlertFor(e: ProductEntry, p: ProductConfig, price: Option<real>, defaultDrop: Option<real>): (a: Option<RetailAlert>)
    ensures a.Some? <==> price.Some? && Fires(e, p, price.value, defaultDrop)
    ensures a.Some? ==>
      a.value.price == price.value && a.value.id == ProductId(p) &&
      a.value.baseline == EffectiveBaseline(p.baseline, e.baseline, price.value) &&
      a.value.drop == PctDrop(a.value.baseline, a.value.price) &&
      a.value.threshold == DropNeeded(p, defaultDrop) && a.value.drop >= a.value.threshold
  {
    if price.Some? && Fires(e, p, price.value, defaultDrop) then
      var b := EffectiveBaseline(p.baseline, e.baseline, price.value);
      Some(RetailAlert(ProductId(p), DisplayName(p), price.value, b, PctDrop(b, price.value), DropNeeded(p, defaultDrop)))
    else None
  }

  /** A reading that is not negative, against a configured baseline that is not negative, keeps the products valid. */
  lemma AfterReadingValid(m: map<string, ProductEntry>, p: ProductConfig, price: Option<real>, now: int)
    requires ProductsValid(m)
    requires (p.baseline.Some? ==> p.baseline.value >= 0.0) && (price.Some? ==> price.value >= 0.0)
    ensures ProductsValid(AfterReading(m, p, price, now))
  {
    var e := ProductOr(m, ProductId(p));
    if price.Some? {
      RecordedValid(e, p, price.value, now);
    }
  }

  /** One product of the retailer loop: its configuration, the fetched page (None when the fetch raised), and the clock. */
  datatype ProductRun = ProductRun(config: ProductConfig, page: Option<PageCaptures>, now: int)

  /** One search of the used-market loop: its configuration and its item cards (None when the fetch raised). */
  datatype SearchRun = SearchRun(config: SearchConfig, cards: Option<seq<RawCard>>)

  /** The ids of the first `n` products run. */
  function ProductIds(runs: seq<ProductRun>, n: nat): set<string>
    requires n <= |runs|
  {
    set j | 0 <= j < n :: ProductId(runs[j].config)
  }

  lemma ProductIdsPrefix(runs: seq<ProductRun>, n: nat)
    requires n <= |runs|
    ensures ProductIds(runs[..n], n) == ProductIds(runs, n)
  {
    forall j | 0 <= j < n ensures runs[..n][j] == runs[j] { }
  }

  lemma ProductIdsNext(runs: seq<ProductRun>, n: nat)
    requires n < |runs|
    ensures ProductIds(runs, n + 1) == ProductIds(runs, n) + {ProductId(runs[n].config)}
  {
  }

  /** The ids of the first `n` searches run. */
  function SearchIds(runs: seq<SearchRun>, n: nat): set<string>
    requires n <= |runs|
  {
    set j | 0 <= j < n :: SearchId(runs[j].config)
  }

  lemma SearchIdsPrefix(runs: seq<SearchRun>, n: nat)
    requires n <= |runs|
    ensures SearchIds(runs[..n], n) == SearchIds(runs, n)
  {
    forall j | 0 <= j < n ensures runs[..n][j] == runs[j] { }
  }

  lemma SearchIdsNext(runs: seq<SearchRun>, n: nat)
    requires n < |runs|
    ensures SearchIds(runs, n + 1) == SearchIds(runs, n) + {SearchId(runs[n].config)}
  {
  }

  /** The price one product's turn reads: none when the fetch raised. */
  function PriceOf(run: ProductRun): (r: Option<real>)
    ensures r.Some? ==> r.value >= 0.0
  {
    if run.page.Some? then FetchProductPrice(run.page.value) else None
  }

  /** The products map after the retailer loop has handled `runs` in order. */
  function ProductsAfter(m: map<string, ProductEntry>, runs: seq<ProductRun>): (m': map<string, ProductEntry>)
    ensures m.Keys <= m'.Keys
    ensures forall i :: 0 <= i < |runs| ==> ProductId(runs[i].config) in m'.Keys
  {
    if runs == [] then m
    else
      var last := runs[|runs| - 1];
      AfterReading(ProductsAfter(m, runs[..|runs| - 1]), last.config, PriceOf(last), last.now)
  }

  /** The alerts the retailer loop raises over `runs`, in order, each against the record as it stood then. */
  function AlertsOf(m: map<string, ProductEntry>, runs: seq<ProductRun>, defaultDrop: Option<real>): (alerts: seq<RetailAlert>)
    ensures |alerts| <= |runs|
  {
    if runs == [] then []
    else
      var front, last := runs[..|runs| - 1], runs[|runs| - 1];
      var e := ProductOr(ProductsAfter(m, front), ProductId(last.config));
      var a := AlertFor(e, last.config, PriceOf(last), defaultDrop);
      AlertsOf(m, front, defaultDrop) + if a.Some? then [a.value] else []
  }

  /** Every alert of the retailer loop carries a drop of at least its threshold from a price that is not negative. */
  lemma {:induction false} AlertsOfSound(m: map<string, ProductEntry>, runs: seq<ProductRun>, defaultDrop: Option<real>)
    ensures forall a :: a in AlertsOf(m, runs, defaultDrop) ==> a.drop == PctDrop(a.baseline, a.price) && a.drop >= a.threshold && a.price >= 0.0
  {
    if runs != [] {
      AlertsOfSound(m, runs[..|runs| - 1], defaultDrop);
    }
  }

  /** The retailer loop keeps every record valid when no configured baseline is negative. */
  lemma {:induction false} ProductsAfterValid(m: map<string, ProductEntry>, runs: seq<ProductRun>)
    requires ProductsValid(m)
    requires forall i :: 0 <= i < |runs| && runs[i].config.baseline.Some? ==> runs[i].config.baseline.value >= 0.0
    ensures ProductsValid(ProductsAfter(m, runs))
  {
    if runs != [] {
      var n := |runs| - 1;
      ProductsAfterValid(m, runs[..n]);
      AfterReadingValid(ProductsAfter(m, runs[..n]), runs[n].config, PriceOf(runs[n]), runs[n].now);
    }
  }

  /** The retailer loop's folds, one run further. */
  lemma ProductsAfterStep(m: map<string, ProductEntry>, runs: seq<ProductRun>, i: nat, defaultDrop: Option<real>)
    requires i < |runs|
    ensures ProductsAfter(m, runs[..i + 1]) == AfterReading(ProductsAfter(m, runs[..i]), runs[i].config, PriceOf(runs[i]), runs[i].now)
    ensures
      var a := AlertFor(ProductOr(ProductsAfter(m, runs[..i]), ProductId(runs[i].config)), runs[i].config, PriceOf(runs[i]), defaultDrop);
      AlertsOf(m, runs[..i + 1], defaultDrop) == AlertsOf(m, runs[..i], defaultDrop) + if a.Some? then [a.value] else []
  {
    var r := runs[..i + 1];
    assert |r| - 1 == i && r[..i] == runs[..i] && r[i] == runs[i];
  }

  /** The loop gives every product run a record and leaves every other record as it was. */
  lemma {:induction false} ProductsAfterFrame(m: map<string, ProductEntry>, runs: seq<ProductRun>)
    ensures ProductsAfter(m, runs).Keys == m.Keys + ProductIds(runs, |runs|)
    ensures forall k :: k in m && k !in ProductIds(runs, |runs|) ==> ProductsAfter(m, runs)[k] == m[k]
  {
    if runs != [] {
      var n := |runs| - 1;
      var mid := ProductsAfter(m, runs[..n]);
      assert ProductsAfter(m, runs) == AfterReading(mid, runs[n].config, PriceOf(runs[n]), runs[n].now);
      ProductsAfterFrame(m, runs[..n]);
      ProductIdsPrefix(runs, n);
      ProductIdsNext(runs, n);
    }
  }

  /** What the candidate loop of one search reports against its stored seen list; None when the fetch raised. */
  function SearchMatches(m: map<string, SearchEntry>, run: SearchRun, msrp: Option<real>): (r: Option<seq<Match>>)
    ensures r.None? <==> run.cards.None?
    ensures r.Some? ==> forall x :: x in r.value ==> Reportable(x, run.config.rule, msrp)
    // no url reported again that the stored list holds
    ensures r.Some? ==> forall x :: x in r.value ==> Unseen(x.item, Elements(SearchOr(m, SearchId(run.config)).seen.GetOr([])))
  {
    if run.cards.Some? then
      MatchesReportable(KeptItems(run.cards.value, run.config.url),
        Elements(SearchOr(m, SearchId(run.config)).seen.GetOr([])), run.config.rule, msrp);
      Some(MatchesOf(KeptItems(run.cards.value, run.config.url),
        Elements(SearchOr(m, SearchId(run.config)).seen.GetOr([])), run.config.rule, msrp))
    else None
  }

  /** The searches map after the used-market loop has handled `runs` in order. */
  ghost function SearchesAfter(m: map<string, SearchEntry>, runs: seq<SearchRun>, msrp: Option<real>): (m': map<string, SearchEntry>)
    ensures m.Keys <= m'.Keys
    ensures forall i :: 0 <= i < |runs| ==> SearchId(runs[i].config) in m'.Keys
  {
    if runs == [] then m
    else
      var mid, last := SearchesAfter(m, runs[..|runs| - 1], msrp), runs[|runs| - 1];
      AfterSearch(mid, last.config, SearchMatches(mid, last, msrp))
  }

  /** The matches each search reports, in order, each against the seen list as it stood then. */
  ghost function FoundOf(m: map<string, SearchEntry>, runs: seq<SearchRun>, msrp: Option<real>): (found: seq<seq<Match>>)
    ensures |found| == |runs|
  {
    if runs == [] then []
    else
      var front := runs[..|runs| - 1];
      FoundOf(m, front, msrp) + [SearchMatches(SearchesAfter(m, front, msrp), runs[|runs| - 1], msrp).GetOr([])]
  }

  /** The loop gives every search run a record and leaves every other record as it was. */
  lemma {:induction false} SearchesAfterFrame(m: map<string, SearchEntry>, runs: seq<SearchRun>, msrp: Option<real>)
    ensures SearchesAfter(m, runs, msrp).Keys == m.Keys + SearchIds(runs, |runs|)
    ensures forall k :: k in m && k !in SearchIds(runs, |runs|) ==> SearchesAfter(m, runs, msrp)[k] == m[k]
  {
    if runs != [] {
      var n := |runs| - 1;
      var mid := SearchesAfter(m, runs[..n], msrp);
      assert SearchesAfter(m, runs, msrp) == AfterSearch(mid, runs[n].config, SearchMatches(mid, runs[n], msrp));
      SearchesAfterFrame(m, runs[..n], msrp);
      SearchIdsPrefix(runs, n);
      SearchIdsNext(runs, n);
    }
  }

  /** The configuration's `msrp` as the used-market loop receives it: only a positive one. */
  function MsrpArgument(msrpSetting: Option<real>): (a: Option<real>)
    ensures a.Some? ==> a == msrpSetting && a.value > 0.0
    ensures a.None? <==> msrpSetting.None? || msrpSetting.value <= 0.0
  {
    if msrpSetting.Some? && msrpSetting.value > 0.0 then msrpSetting else None
  }

  class Ledger {
    var products: map<string, ProductEntry>
    var searches: map<string, SearchEntry>

    /** The loaded state: no invariant is assumed of it. */
    constructor (products: map<string, ProductEntry>, searches: map<string, SearchEntry>)
      ensures this.products == products && this.searches == searches
    {
      this.products := products;
      this.searches := searches;
    }

    /** Baselines and prices are never negative, histories and seen lists within their caps, seen lists sorted. */
    ghost predicate Valid()
      reads this
    {
      ProductsValid(products) && SearchesValid(searches)
    }

    /**
     * One product of `main`'s retailer loop after its fetch; `price` is None when
     * the fetch raised or no strategy found a price.  The record is created
     * either way; a reading updates baseline, history and the display fields,
     * and the alert fires when the drop from the baseline meets the threshold.
     */
    method RecordProduct(p: ProductConfig, price: Option<real>, now: int, defaultDrop: Option<real>)
      returns (alert: Option<RetailAlert>)
      modifies this
      ensures searches == old(searches)
      ensures products == AfterReading(old(products), p, price, now)
      ensures alert == AlertFor(ProductOr(old(products), ProductId(p)), p, price, defaultDrop)
      ensures old(Valid()) && (p.baseline.Some? ==> p.baseline.value >= 0.0) && (price.Some? ==> price.value >= 0.0) ==> Valid()
    {
      if old(Valid()) && (p.baseline.Some? ==> p.baseline.value >= 0.0) && (price.Some? ==> price.value >= 0.0) {
        AfterReadingValid(products, p, price, now);
      }
      var pid := ProductId(p);
      var st := ProductOr(products, pid);
      alert := None;
      if price.Some? {
        var current := price.value;
        var baseline := st.baseline;
        if p.baseline.Some? {
          baseline := p.baseline;
        }
        if baseline.None? {
          baseline := Some(current);
        }
        var dropNeeded := DropNeeded(p, defaultDrop);
        var dropNow := PctDrop(baseline.value, current);
        var hist := st.history + [Sample(now, current)];
        if dropNow >= dropNeeded {
          alert := Some(RetailAlert(pid, DisplayName(p), current, baseline.value, dropNow, dropNeeded));
        }
        st := st.(history := KeepLast(hist, HistoryCap), lastPrice := Some(current),
                  baseline := baseline, url := Some(p.url), name := Some(DisplayName(p)));
      }
      products := products[pid := st];
    }

    /**
     * One search of `main`'s used-market loop after its candidate loop;
     * `matches` is None when the search raised.  The record is created either
     * way; a completed search stores its seen set, with the matched urls added,
     * sorted and cut to the last 2000.
     */
    method RecordSearch(sc: SearchConfig, matches: Option<seq<Match>>)
      modifies this
      ensures products == old(products)
      ensures searches.Keys == old(searches).Keys + {SearchId(sc)}
      ensures matches.None? ==> searches == old(searches)[SearchId(sc) := SearchOr(old(searches), SearchId(sc))]
      ensures searches == AfterSearch(old(searches), sc, matches)
      ensures old(Valid()) ==> Valid()
    {
      ghost var wasValid := Valid();
      var sid := SearchId(sc);
      var entry := SearchOr(searches, sid);
      ghost var after := AfterSearch(searches, sc, matches);
      if matches.Some? {
        var seen := AddMatchedUrls(Elements(entry.seen.GetOr([])), matches.value);
        var kept := StoreSeen(seen);
        assert kept == StoredSeenOf(SeenAfter(entry.seen, matches.value));
        entry := SearchEntry(Some(kept));
      }
      assert after == searches[sid := entry];
      if wasValid {
        SearchesValidUpdate(searches, sid, entry);
      }
      searches := searches[sid := entry];
    }

    /**
     * `main`'s retailer loop.  Every product gets a record, every alert meets
     * its threshold, and the ledger invariant is kept when configured baselines
     * are not negative.
     */
    method RunProducts(runs: seq<ProductRun>, defaultDrop: Option<real>) returns (alerts: seq<RetailAlert>)
      modifies this
      ensures searches == old(searches)
      ensures products == ProductsAfter(old(products), runs)
      ensures alerts == AlertsOf(old(products), runs, defaultDrop)
      ensures old(products).Keys <= products.Keys
      ensures ProductIds(runs, |runs|) <= products.Keys
      ensures |alerts| <= |runs|
      ensures forall a :: a in alerts ==> a.drop == PctDrop(a.baseline, a.price) && a.drop >= a.threshold && a.price >= 0.0
      ensures old(Valid()) && (forall i :: 0 <= i < |runs| && runs[i].config.baseline.Some? ==> runs[i].config.baseline.value >= 0.0) ==> Valid()
    {
      alerts := [];
      for i := 0 to |runs|
        invariant searches == old(searches)
        invariant products == ProductsAfter(old(products), runs[..i])
        invariant alerts == AlertsOf(old(products), runs[..i], defaultDrop)
      {
        var run := runs[i];
        var price := if run.page.Some? then FetchProductPrice(run.page.value) else None;
        assert price == PriceOf(run);
        ProductsAfterStep(old(products), runs, i, defaultDrop);
        var alert := RecordProduct(run.config, price, run.now, defaultDrop);
        if alert.Some? {
          alerts := alerts + [alert.value];
        }
      }
      assert runs[..|runs|] == runs;
      ProductsAfterFrame(old(products), runs);
      AlertsOfSound(old(products), runs, defaultDrop);
      if old(Valid()) && forall i :: 0 <= i < |runs| && runs[i].config.baseline.Some? ==> runs[i].config.baseline.value >= 0.0 {
        ProductsAfterValid(old(products), runs);
      }
    }

    /**
     * One search of `main`'s used-market loop: read the cards (None when the
     * fetch raised), run the candidate loop against the stored seen set and
     * record the matches.
     */
    method RunSearch(run: SearchRun, msrp: Option<real>) returns (matches: seq<Match>)
      modifies this
      ensures products == old(products)
      ensures searches.Keys == old(searches).Keys + {SearchId(run.config)}
      ensures run.cards.None? ==> matches == []
      ensures run.cards.None? ==>
        searches == old(searches)[SearchId(run.config) := SearchOr(old(searches), SearchId(run.config))]
      ensures run.cards.Some? ==> matches == MatchesOf(KeptItems(run.cards.value, run.config.url),
        Elements(SearchOr(old(searches), SearchId(run.config)).seen.GetOr([])), run.config.rule, msrp)
      ensures matches == SearchMatches(old(searches), run, msrp).GetOr([])
      ensures searches == AfterSearch(old(searches), run.config, SearchMatches(old(searches), run, msrp))
      ensures forall m :: m in matches ==> Reportable(m, run.config.rule, msrp)
      ensures old(Valid()) ==> Valid()
    {
      var sid := SearchId(run.config);
      var stored := SearchOr(searches, sid).seen.GetOr([]);
      matches := [];
      if run.cards.Some? {
        var items := ExtractItems(run.cards.value, run.config.url);
        matches := SearchUsedMarket(items, Elements(stored), run.config.rule, msrp);
        MatchesReportable(items, Elements(stored), run.config.rule, msrp);
        RecordSearch(run.config, Some(matches));
      } else {
        RecordSearch(run.config, None);
      }
    }

    /**
     * `main`'s used-market loop.  `msrpSetting` is the configuration's `msrp`;
     * only a positive one is used.  Every search gets a record, and every match
     * reported passes its search's keyword filter and fires one of its rules.
     */
    method RunSearches(runs: seq<SearchRun>, msrpSetting: Option<real>) returns (found: seq<seq<Match>>)
      modifies this
      ensures products == old(products)
      ensures old(searches).Keys <= searches.Keys
      ensures SearchIds(runs, |runs|) <= searches.Keys
      ensures |found| == |runs|
      ensures searches == SearchesAfter(old(searches), runs, MsrpArgument(msrpSetting))
      ensures found == FoundOf(old(searches), runs, MsrpArgument(msrpSetting))
      ensures forall i, m :: 0 <= i < |runs| && m in found[i] ==> Reportable(m, runs[i].config.rule, MsrpArgument(msrpSetting))
      ensures old(Valid()) ==> Valid()
    {
      var msrp := MsrpArgument(msrpSetting);
      found := [];
      ghost var wasValid := Valid();
      for i := 0 to |runs|
        invariant products == old(products)
        invariant old(searches).Keys <= searches.Keys
        invariant SearchIds(runs, i) <= searches.Keys
        invariant |found| == i
        invariant searches == SearchesAfter(old(searches), runs[..i], msrp)
        invariant found == FoundOf(old(searches), runs[..i], msrp)
        invariant AllReportable(found, runs, msrp)
        invariant wasValid ==> Valid()
      {
        SearchIdsNext(runs, i);
        assert runs[..i + 1][..i] == runs[..i] && runs[..i + 1][i] == runs[i];
        ghost var expected := SearchMatches(searches, runs[i], msrp);
        assert SearchesAfter(old(searches), runs[..i + 1], msrp) == AfterSearch(searches, runs[i].config, expected);
        assert FoundOf(old(searches), runs[..i + 1], msrp) == found + [expected.GetOr([])];
        var matches := RunSearch(runs[i], msrp);
        AllReportableExtend(found, runs, msrp, matches);
        found := found + [matches];
      }
      assert runs[..|runs|] == runs;
    }
  }
}
