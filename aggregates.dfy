/** The aggregations of the `Author` and `Department` models: papers and
    citations per year, co-authors, subjects, keywords and funds counted
    over an author's papers (or over every paper of every member of a
    department), the percentile bins of the papers' sources, and the sets of
    institutions, countries and sources they reach.

    The relationships these methods walk (`author.papers`, `paper.source`,
    `paper.authors`, `department.authors`) are read as values: one
    `PaperFacts` per paper link, one `Member` per author of a department. */
module Aggregates {
  import opened Wrappers
  import opened Py
  import opened Models

  /** What an aggregation reads through one `paper_author.paper`: its year
      (`get_year()`), `cited_cnt`, its source (`null` for none) with that
      source's metrics and subjects, its keywords, its fund and the authors
      of its author links, in order. */
  datatype PaperFacts = PaperFacts(
    year: int,
    citedCnt: Option<int>,
    source: Source?,
    metrics: seq<SourceMetric>,
    subjects: seq<Subject>,
    keywords: seq<Keyword>,
    fund: Fund?,
    authors: seq<Author>)

  /** One author of a department, with the papers of that author. */
  datatype Member = Member(author: Author, papers: seq<PaperFacts>)

  // ---------------------------------------------------------------------
  // Counting dicts

  /** A dict of counts, as its items in insertion order. */
  type Counter<K> = seq<(K, int)>

  /** The keys of a counter (or of a list of weighted items), in order. */
  function KeysOf<K>(c: seq<(K, int)>): (r: seq<K>)
    ensures |r| == |c|
    ensures forall j :: 0 <= j < |c| ==> r[j] == c[j].0
  {
    seq(|c|, j requires 0 <= j < |c| => c[j].0)
  }

  /** No key occurs twice, as in a dict. */
  predicate DistinctKeys<K(==)>(c: seq<(K, int)>) {
    forall i, j :: 0 <= i < j < |c| ==> c[i].0 != c[j].0
  }

  /** `c.get(k, 0)`. */
  function Get<K(==)>(c: Counter<K>, k: K): int {
    if c == [] then 0 else if c[0].0 == k then c[0].1 else Get(c[1..], k)
  }

  /** `sum(c.values())`, or the total weight of a list of items. */
  function Sum<K>(c: seq<(K, int)>): int {
    if c == [] then 0 else c[0].1 + Sum(c[1..])
  }

  lemma {:induction false} SumAppend<K>(a: seq<(K, int)>, b: seq<(K, int)>)
    ensures Sum(a + b) == Sum(a) + Sum(b)
    decreases |a|
  {
    if a != [] {
      assert (a + b)[0] == a[0];
      assert (a + b)[1..] == a[1..] + b;
      SumAppend(a[1..], b);
    } else {
      assert a + b == b;
    }
  }

  /** `try: c[k] += amount` / `except KeyError: c[k] = amount`: the count
      of `k` grows by `amount`; a key not yet present goes last. */
  function Bump<K(==)>(c: Counter<K>, k: K, amount: int): (r: Counter<K>)
    ensures c != [] ==> r != [] && r[0].0 == c[0].0
    ensures Sum(r) == Sum(c) + amount
  {
    if c == [] then [(k, amount)]
    else if c[0].0 == k then
      var r := [(k, c[0].1 + amount)] + c[1..];
      assert r[1..] == c[1..];
      r
    else
      var r := [c[0]] + Bump(c[1..], k, amount);
      assert r[1..] == Bump(c[1..], k, amount);
      r
  }

  /** Bumping keeps the keys in their order, a new key going last. */
  lemma {:induction false} BumpKeys<K>(c: Counter<K>, k: K, amount: int)
    ensures KeysOf(Bump(c, k, amount)) == if k in KeysOf(c) then KeysOf(c) else KeysOf(c) + [k]
    decreases |c|
  {
    var r := Bump(c, k, amount);
    if c == [] {
      assert KeysOf(r) == [k];
    } else if c[0].0 == k {
      assert KeysOf(c)[0] == k;
      assert KeysOf(r) == KeysOf(c);
    } else {
      var rest := Bump(c[1..], k, amount);
      BumpKeys(c[1..], k, amount);
      assert r == [c[0]] + rest;
      assert KeysOf(c) == [c[0].0] + KeysOf(c[1..]);
      assert KeysOf(r) == [c[0].0] + KeysOf(rest);
      if k !in KeysOf(c[1..]) {
        assert [c[0].0] + (KeysOf(c[1..]) + [k]) == KeysOf(c) + [k];
      }
    }
  }

  /** Bumping `k` changes the count of `k` and of no other key. */
  lemma {:induction false} BumpGet<K>(c: Counter<K>, k: K, amount: int, x: K)
    ensures Get(Bump(c, k, amount), x) == Get(c, x) + (if x == k then amount else 0)
    decreases |c|
  {
    if c != [] && c[0].0 != k {
      BumpGet(c[1..], k, amount, x);
      assert ([c[0]] + Bump(c[1..], k, amount))[1..] == Bump(c[1..], k, amount);
    } else if c != [] {
      assert ([(k, c[0].1 + amount)] + c[1..])[1..] == c[1..];
    }
  }

  /** The counter `c` after bumping it by each item in turn. */
  function Tallied<K(==)>(c: Counter<K>, items: seq<(K, int)>): Counter<K>
    decreases |items|
  {
    if items == [] then c
    else Bump(Tallied(c, items[..|items| - 1]), items[|items| - 1].0, items[|items| - 1].1)
  }

  /** The total weight of the items of key `k`. */
  function Weight<K(==)>(items: seq<(K, int)>, k: K): int
    decreases |items|
  {
    if items == [] then 0
    else Weight(items[..|items| - 1], k) + (if items[|items| - 1].0 == k then items[|items| - 1].1 else 0)
  }

  lemma {:induction false} WeightAppend<K>(a: seq<(K, int)>, b: seq<(K, int)>, k: K)
    ensures Weight(a + b, k) == Weight(a, k) + Weight(b, k)
    decreases |b|
  {
    if b != [] {
      assert (a + b)[..|a + b| - 1] == a + b[..|b| - 1];
      assert (a + b)[|a + b| - 1] == b[|b| - 1];
      WeightAppend(a, b[..|b| - 1], k);
    } else {
      assert a + b == a;
    }
  }

  /** Counting a list of items: every key's count grows by the weight of its
      items, the total by the total weight, and the keys are those of `c`
      followed by the new keys of the items, each once. */
  lemma {:induction false} TalliedSpec<K>(c: Counter<K>, items: seq<(K, int)>)
    ensures forall k :: Get(Tallied(c, items), k) == Get(c, k) + Weight(items, k)
    ensures Sum(Tallied(c, items)) == Sum(c) + Sum(items)
    ensures forall k :: k in KeysOf(Tallied(c, items)) <==> k in KeysOf(c) || k in KeysOf(items)
    ensures DistinctKeys(c) ==> DistinctKeys(Tallied(c, items))
    ensures c != [] ==> Tallied(c, items) != [] && Tallied(c, items)[0].0 == c[0].0
    decreases |items|
  {
    if items != [] {
      var init, last := items[..|items| - 1], items[|items| - 1];
      TalliedSpec(c, init);
      var t := Tallied(c, init);
      assert items == init + [last];
      SumAppend(init, [last]);
      assert KeysOf(items) == KeysOf(init) + [last.0];
      var r := Bump(t, last.0, last.1);
      BumpKeys(t, last.0, last.1);
      forall k
        ensures Get(r, k) == Get(c, k) + Weight(items, k)
      {
        BumpGet(t, last.0, last.1, k);
      }
      if DistinctKeys(c) {
        forall i, j | 0 <= i < j < |r|
          ensures r[i].0 != r[j].0
        {
          assert KeysOf(r)[i] == r[i].0 && KeysOf(r)[j] == r[j].0;
          assert KeysOf(t)[i] == t[i].0;
        }
      }
    }
  }

  lemma {:induction false} TalliedAppend<K>(c: Counter<K>, a: seq<(K, int)>, b: seq<(K, int)>)
    ensures Tallied(c, a + b) == Tallied(Tallied(c, a), b)
    decreases |b|
  {
    if b == [] {
      assert a + b == a;
    } else {
      assert (a + b)[..|a + b| - 1] == a + b[..|b| - 1];
      TalliedAppend(c, a, b[..|b| - 1]);
    }
  }

  /** The items the papers contribute, paper by paper, as `itemsOf` gives
      them for one paper. */
  function Items<K>(papers: seq<PaperFacts>, itemsOf: PaperFacts -> seq<(K, int)>): seq<(K, int)>
    decreases |papers|
  {
    if papers == [] then []
    else Items(papers[..|papers| - 1], itemsOf) + itemsOf(papers[|papers| - 1])
  }

  lemma {:induction false} ItemsAppend<K>(a: seq<PaperFacts>, b: seq<PaperFacts>, itemsOf: PaperFacts -> seq<(K, int)>)
    ensures Items(a + b, itemsOf) == Items(a, itemsOf) + Items(b, itemsOf)
    decreases |b|
  {
    if b == [] {
      assert a + b == a;
    } else {
      assert (a + b)[..|a + b| - 1] == a + b[..|b| - 1];
      ItemsAppend(a, b[..|b| - 1], itemsOf);
    }
  }

  /** The inner loop over what one paper contributes: `try: d[key] += n`
      / `except KeyError: d[key] = n` for each item in turn. */
  method CountItems<K(==)>(c: Counter<K>, items: seq<(K, int)>) returns (r: Counter<K>)
    ensures r == Tallied(c, items)
  {
    r := c;
    for j := 0 to |items|
      invariant r == Tallied(c, items[..j])
    {
      r := Bump(r, items[j].0, items[j].1);
      assert items[..j + 1][..j] == items[..j];
    }
    assert items[..|items|] == items;
  }

  /** The loop over an author's paper links, counting what each paper
      contributes. */
  method CountPapers<K(==)>(c: Counter<K>, papers: seq<PaperFacts>, itemsOf: PaperFacts -> seq<(K, int)>)
    returns (r: Counter<K>)
    ensures r == Tallied(c, Items(papers, itemsOf))
  {
    r := c;
    for i := 0 to |papers|
      invariant r == Tallied(c, Items(papers[..i], itemsOf))
    {
      r := CountItems(r, itemsOf(papers[i]));
      TalliedAppend(c, Items(papers[..i], itemsOf), itemsOf(papers[i]));
      assert papers[..i + 1][..i] == papers[..i];
    }
    assert papers[..|papers|] == papers;
  }

  /** Every paper link of every member, member by member. */
  function MemberPapers(members: seq<Member>): seq<PaperFacts>
    decreases |members|
  {
    if members == [] then []
    else MemberPapers(members[..|members| - 1]) + members[|members| - 1].papers
  }

  /** The department's nested loop: over its authors, then over each
      author's paper links. */
  method CountMembers<K(==)>(c: Counter<K>, members: seq<Member>, itemsOf: PaperFacts -> seq<(K, int)>)
    returns (r: Counter<K>)
    ensures r == Tallied(c, Items(MemberPapers(members), itemsOf))
  {
    r := c;
    for i := 0 to |members|
      invariant r == Tallied(c, Items(MemberPapers(members[..i]), itemsOf))
    {
      var done := MemberPapers(members[..i]);
      r := CountPapers(r, members[i].papers, itemsOf);
      assert members[..i + 1][..i] == members[..i];
      ItemsAppend(done, members[i].papers, itemsOf);
      TalliedAppend(c, Items(done, itemsOf), Items(members[i].papers, itemsOf));
    }
    assert members[..|members|] == members;
  }

  /** `{k: v for k, v in c.items() if threshold <= v}` when `threshold` is
      truthy; otherwise `c` as it is. */
  function AtLeast<K(==)>(c: Counter<K>, threshold: int): (r: Counter<K>)
    ensures threshold == 0 ==> r == c
    ensures threshold != 0 ==> forall j :: 0 <= j < |r| ==> threshold <= r[j].1
    ensures threshold != 0 ==> forall j :: 0 <= j < |r| ==> r[j] in c
    ensures threshold != 0 ==> forall j :: 0 <= j < |c| && threshold <= c[j].1 ==> c[j] in r
    ensures threshold != 0 && DistinctKeys(c) ==> DistinctKeys(r)
  {
    if threshold == 0 then c else Kept(c, threshold)
  }

  /** The items of `c` whose count reaches `threshold`, in order. */
  function Kept<K(==)>(c: Counter<K>, threshold: int): (r: Counter<K>)
    ensures forall j :: 0 <= j < |r| ==> r[j] in c && threshold <= r[j].1
    ensures forall j :: 0 <= j < |c| && threshold <= c[j].1 ==> c[j] in r
    ensures DistinctKeys(c) ==> DistinctKeys(r)
  {
    if c == [] then []
    else if threshold <= c[0].1 then [c[0]] + Kept(c[1..], threshold)
    else Kept(c[1..], threshold)
  }

  /** In a dict, `Get` is the count stored with the key. */
  lemma GetStored<K>(c: Counter<K>, kv: (K, int))
    requires DistinctKeys(c) && kv in c
    ensures Get(c, kv.0) == kv.1
  {
    if c[0] != kv {
      assert kv in c[1..];
      assert DistinctKeys(c[1..]) by {
        forall i, j | 0 <= i < j < |c| - 1
          ensures c[1..][i].0 != c[1..][j].0
        {
          assert c[1..][i] == c[i + 1] && c[1..][j] == c[j + 1];
        }
      }
      GetStored(c[1..], kv);
      var m :| 0 <= m < |c| && c[m] == kv;
      assert c[0].0 != kv.0;
    }
  }

  /** A key is present exactly when `Get` finds it, in which case it is
      stored with that count. */
  lemma GetKeys<K>(c: Counter<K>, k: K)
    requires DistinctKeys(c)
    ensures k in KeysOf(c) <==> (k, Get(c, k)) in c
    ensures k !in KeysOf(c) ==> Get(c, k) == 0
  {
    if k in KeysOf(c) {
      var j :| 0 <= j < |c| && KeysOf(c)[j] == k;
      GetStored(c, c[j]);
    } else if c != [] {
      assert KeysOf(c[1..]) == KeysOf(c)[1..];
      assert DistinctKeys(c[1..]) by {
        forall i, j | 0 <= i < j < |c| - 1
          ensures c[1..][i].0 != c[1..][j].0
        {
          assert c[1..][i] == c[i + 1] && c[1..][j] == c[j + 1];
        }
      }
      GetKeys(c[1..], k);
    }
  }

  /** With a truthy threshold, a key survives exactly when its count reaches
      the threshold, and keeps its count; a falsy one keeps every key. */
  lemma ThresholdSpec<K>(c: Counter<K>, threshold: int, k: K)
    requires DistinctKeys(c)
    ensures threshold == 0 ==> AtLeast(c, threshold) == c
    ensures threshold != 0 ==>
      (k in KeysOf(AtLeast(c, threshold)) <==> k in KeysOf(c) && threshold <= Get(c, k))
    ensures k in KeysOf(AtLeast(c, threshold)) ==> Get(AtLeast(c, threshold), k) == Get(c, k)
  {
    var r := AtLeast(c, threshold);
    GetKeys(c, k);
    GetKeys(r, k);
    if threshold != 0 && k in KeysOf(c) && threshold <= Get(c, k) {
      assert (k, Get(c, k)) in r;
      var j :| 0 <= j < |r| && r[j] == (k, Get(c, k));
      assert KeysOf(r)[j] == k;
    }
  }

  // ---------------------------------------------------------------------
  // What each paper contributes

  /** `get_papers_trend`: one paper for the paper's year. */
  function YearItem(p: PaperFacts): seq<(int, int)> {
    [(p.year, 1)]
  }

  /** `cited_cnt`, a missing (falsy) count read as 0. */
  function Cited(p: PaperFacts): int {
    if p.citedCnt.None? then 0 else p.citedCnt.value
  }

  /** `get_citations_trend`: the paper's citations for the paper's year. */
  function CitationItem(p: PaperFacts): seq<(int, int)> {
    [(p.year, Cited(p))]
  }

  /** `get_co_authors`: one for each author link of the paper, except to
      the authors in `excluded`. */
  function CoAuthorItems(p: PaperFacts, excluded: set<Author>): seq<(Author, int)> {
    Others(p.authors, excluded)
  }

  /** One for each of `authors` not in `excluded`, in order. */
  function Others<K(==)>(authors: seq<K>, excluded: set<K>): seq<(K, int)>
    decreases |authors|
  {
    if authors == [] then []
    else
      var a := authors[|authors| - 1];
      Others(authors[..|authors| - 1], excluded) + (if a in excluded then [] else [(a, 1)])
  }

  /** `get_subjects`: one for each subject of the paper's source; nothing
      for a paper without a source. */
  function SubjectItems(p: PaperFacts): (r: seq<(Subject, int)>)
    ensures p.source == null ==> r == []
  {
    if p.source == null then [] else seq(|p.subjects|, j requires 0 <= j < |p.subjects| => (p.subjects[j], 1))
  }

  /** `get_keywords`: one for the text of each keyword of the paper. */
  function KeywordItems(p: PaperFacts): seq<(string, int)> {
    seq(|p.keywords|, j requires 0 <= j < |p.keywords| => (p.keywords[j].keyword, 1))
  }

  /** The key a fund agency is counted under: "NOT AVAILABLE" is counted as
      "unknown". */
  function FundKey(agency: JsonVal): (r: JsonVal)
    ensures r != Str("NOT AVAILABLE")
    ensures agency != Str("NOT AVAILABLE") ==> r == agency
  {
    if agency == Str("NOT AVAILABLE") then Str("unknown") else agency
  }

  /** `get_funds`: one for the paper's fund agency; nothing for a paper
      without a fund. */
  function FundItem(p: PaperFacts): seq<(JsonVal, int)> {
    if p.fund == null then [] else [(FundKey(p.fund.agency), 1)]
  }

  // ---------------------------------------------------------------------
  // What the counts mean, stated without the counters

  /** The year of each paper link. */
  function Years(papers: seq<PaperFacts>): (r: seq<int>)
    ensures |r| == |papers| && forall j :: 0 <= j < |papers| ==> r[j] == papers[j].year
  {
    seq(|papers|, j requires 0 <= j < |papers| => papers[j].year)
  }

  /** The citations of the papers of year `y`. */
  function CitationsIn(papers: seq<PaperFacts>, y: int): int {
    if papers == [] then 0
    else (if papers[0].year == y then Cited(papers[0]) else 0) + CitationsIn(papers[1..], y)
  }

  /** The citations of all the papers. */
  function Citations(papers: seq<PaperFacts>): int {
    if papers == [] then 0 else Cited(papers[0]) + Citations(papers[1..])
  }

  /** The number of links from the papers to author `a`. */
  function LinksTo(papers: seq<PaperFacts>, a: Author): nat {
    if papers == [] then 0 else multiset(papers[0].authors)[a] + LinksTo(papers[1..], a)
  }

  /** The number of times subject `s` is a subject of a paper's source. */
  function SubjectUses(papers: seq<PaperFacts>, s: Subject): nat {
    if papers == [] then 0
    else (if papers[0].source == null then 0 else multiset(papers[0].subjects)[s]) + SubjectUses(papers[1..], s)
  }

  /** The texts of a paper's keywords. */
  function Texts(keywords: seq<Keyword>): seq<string> {
    if keywords == [] then [] else [keywords[0].keyword] + Texts(keywords[1..])
  }

  /** The number of keywords of the papers with text `t`. */
  function KeywordUses(papers: seq<PaperFacts>, t: string): nat {
    if papers == [] then 0 else multiset(Texts(papers[0].keywords))[t] + KeywordUses(papers[1..], t)
  }

  /** The number of funded papers whose agency is counted under `key`. */
  function FundedUnder(papers: seq<PaperFacts>, key: JsonVal): nat {
    if papers == [] then 0
    else (if papers[0].fund != null && FundKey(papers[0].fund.agency) == key then 1 else 0) + FundedUnder(papers[1..], key)
  }

  /** The front-recursive counts above, peeled from the back. */
  lemma {:induction false} PeelLast(papers: seq<PaperFacts>)
    requires papers != []
    ensures var init, p := papers[..|papers| - 1], papers[|papers| - 1];
      && (forall y :: CitationsIn(papers, y) == CitationsIn(init, y) + (if p.year == y then Cited(p) else 0))
      && Citations(papers) == Citations(init) + Cited(p)
      && (forall a :: LinksTo(papers, a) == LinksTo(init, a) + multiset(p.authors)[a])
      && (forall s :: SubjectUses(papers, s) == SubjectUses(init, s) + (if p.source == null then 0 else multiset(p.subjects)[s]))
      && (forall t :: KeywordUses(papers, t) == KeywordUses(init, t) + multiset(Texts(p.keywords))[t])
      && (forall key :: FundedUnder(papers, key) == FundedUnder(init, key) + (if p.fund != null && FundKey(p.fund.agency) == key then 1 else 0))
    decreases |papers|
  {
    if |papers| > 1 {
      var tail := papers[1..];
      PeelLast(tail);
      assert tail[..|tail| - 1] == papers[..|papers| - 1][1..];
    }
  }

  /** The papers trend counts, for each year, the paper links of that year;
      its values add up to the number of paper links; its keys are the
      years that occur. */
  lemma {:induction false} YearItemsSpec(papers: seq<PaperFacts>, y: int)
    ensures Weight(Items(papers, YearItem), y) == multiset(Years(papers))[y]
    ensures Sum(Items(papers, YearItem)) == |papers|
    ensures y in KeysOf(Items(papers, YearItem)) <==> y in Years(papers)
    decreases |papers|
  {
    if papers != [] {
      var init := papers[..|papers| - 1];
      var p := papers[|papers| - 1];
      YearItemsSpec(init, y);
      SumAppend(Items(init, YearItem), YearItem(p));
      assert Years(papers) == Years(init) + [p.year];
      assert Weight(YearItem(p), y) == if p.year == y then 1 else 0 by {
        assert YearItem(p)[..0] == [];
      }
      WeightAppend(Items(init, YearItem), YearItem(p), y);
      assert KeysOf(Items(papers, YearItem)) == KeysOf(Items(init, YearItem)) + [p.year];
    }
  }

  /** The citations trend adds up, for each year, the citations of the
      papers of that year, a missing count as 0. */
  lemma {:induction false} CitationItemsSpec(papers: seq<PaperFacts>, y: int)
    ensures Weight(Items(papers, CitationItem), y) == CitationsIn(papers, y)
    ensures Sum(Items(papers, CitationItem)) == Citations(papers)
    ensures y in KeysOf(Items(papers, CitationItem)) <==> y in Years(papers)
    decreases |papers|
  {
    if papers != [] {
      var init := papers[..|papers| - 1];
      var p := papers[|papers| - 1];
      CitationItemsSpec(init, y);
      PeelLast(papers);
      SumAppend(Items(init, CitationItem), CitationItem(p));
      assert Years(papers) == Years(init) + [p.year];
      assert Weight(CitationItem(p), y) == if p.year == y then Cited(p) else 0 by {
        assert CitationItem(p)[..0] == [];
      }
      WeightAppend(Items(init, CitationItem), CitationItem(p), y);
      assert KeysOf(Items(papers, CitationItem)) == KeysOf(Items(init, CitationItem)) + [p.year];
    }
  }

  /** Peeling the last paper off a list of items. */
  lemma {:induction false} ItemsPeel<K>(papers: seq<PaperFacts>, itemsOf: PaperFacts -> seq<(K, int)>, k: K)
    requires papers != []
    ensures var init, p := papers[..|papers| - 1], papers[|papers| - 1];
      && Weight(Items(papers, itemsOf), k) == Weight(Items(init, itemsOf), k) + Weight(itemsOf(p), k)
      && Sum(Items(papers, itemsOf)) == Sum(Items(init, itemsOf)) + Sum(itemsOf(p))
      && (k in KeysOf(Items(papers, itemsOf)) <==> k in KeysOf(Items(init, itemsOf)) || k in KeysOf(itemsOf(p)))
  {
    var init, p := papers[..|papers| - 1], papers[|papers| - 1];
    WeightAppend(Items(init, itemsOf), itemsOf(p), k);
    SumAppend(Items(init, itemsOf), itemsOf(p));
    assert KeysOf(Items(papers, itemsOf)) == KeysOf(Items(init, itemsOf)) + KeysOf(itemsOf(p));
  }

  /** One for each element of `xs`, in order. */
  function Ones<K>(xs: seq<K>): (r: seq<(K, int)>)
    ensures |r| == |xs| && forall j :: 0 <= j < |xs| ==> r[j] == (xs[j], 1)
  {
    seq(|xs|, j requires 0 <= j < |xs| => (xs[j], 1))
  }

  lemma {:induction false} OnesSpec<K>(xs: seq<K>, k: K)
    ensures Weight(Ones(xs), k) == multiset(xs)[k]
    ensures k in KeysOf(Ones(xs)) <==> k in xs
    decreases |xs|
  {
    if xs != [] {
      var init := xs[..|xs| - 1];
      OnesSpec(init, k);
      assert Ones(xs)[..|xs| - 1] == Ones(init);
      assert xs == init + [xs[|xs| - 1]];
      assert KeysOf(Ones(xs)) == KeysOf(Ones(init)) + [xs[|xs| - 1]];
    }
  }

  /** A paper's co-author items count its links to each author not
      excluded ... */
  lemma {:induction false} OthersWeight<K>(authors: seq<K>, excluded: set<K>, a: K)
    ensures Weight(Others(authors, excluded), a) == if a in excluded then 0 else multiset(authors)[a]
    decreases |authors|
  {
    if authors != [] {
      var init, last := authors[..|authors| - 1], authors[|authors| - 1];
      OthersWeight(init, excluded, a);
      assert multiset(authors)[a] == multiset(init)[a] + (if last == a then 1 else 0) by {
        assert authors == init + [last];
      }
      assert Weight(Others(authors, excluded), a)
          == Weight(Others(init, excluded), a) + (if last !in excluded && last == a then 1 else 0) by {
        var tail: seq<(K, int)> := if last in excluded then [] else [(last, 1)];
        WeightAppend(Others(init, excluded), tail, a);
        if tail != [] {
          assert tail[..0] == [];
        }
      }
    }
  }

  /** ... and name exactly those authors. */
  lemma {:induction false} OthersKeys<K>(authors: seq<K>, excluded: set<K>, a: K)
    ensures a in KeysOf(Others(authors, excluded)) <==> a !in excluded && a in authors
    decreases |authors|
  {
    if authors != [] {
      var init, last := authors[..|authors| - 1], authors[|authors| - 1];
      OthersKeys(init, excluded, a);
      assert a in authors <==> a in init || a == last by {
        assert authors == init + [last];
      }
      assert a in KeysOf(Others(authors, excluded))
          <==> a in KeysOf(Others(init, excluded)) || (last !in excluded && a == last) by {
        var tail: seq<(K, int)> := if last in excluded then [] else [(last, 1)];
        assert Others(authors, excluded) == Others(init, excluded) + tail;
        assert KeysOf(Others(authors, excluded)) == KeysOf(Others(init, excluded)) + KeysOf(tail);
        assert KeysOf(tail) == if last in excluded then [] else [last];
      }
    }
  }

  /** The co-author items of each paper, leaving out `excluded`. */
  function CoAuthorsBut(excluded: set<Author>): PaperFacts -> seq<(Author, int)> {
    p => CoAuthorItems(p, excluded)
  }

  /** Co-author links are counted per author, never for an excluded author,
      and the authors counted are those with at least one link. */
  lemma {:induction false} CoAuthorItemsSpec(papers: seq<PaperFacts>, excluded: set<Author>, a: Author)
    ensures Weight(Items(papers, CoAuthorsBut(excluded)), a) == if a in excluded then 0 else LinksTo(papers, a)
    ensures a in KeysOf(Items(papers, CoAuthorsBut(excluded))) <==> a !in excluded && LinksTo(papers, a) > 0
    decreases |papers|
  {
    if papers != [] {
      var init, p := papers[..|papers| - 1], papers[|papers| - 1];
      CoAuthorItemsSpec(init, excluded, a);
      ItemsPeel(papers, CoAuthorsBut(excluded), a);
      PeelLast(papers);
      OthersWeight(p.authors, excluded, a);
      OthersKeys(p.authors, excluded, a);
    }
  }

  /** Subjects are counted once for each paper whose source has them. */
  lemma {:induction false} SubjectItemsSpec(papers: seq<PaperFacts>, s: Subject)
    ensures Weight(Items(papers, SubjectItems), s) == SubjectUses(papers, s)
    ensures s in KeysOf(Items(papers, SubjectItems)) <==> SubjectUses(papers, s) > 0
    decreases |papers|
  {
    if papers != [] {
      var init, p := papers[..|papers| - 1], papers[|papers| - 1];
      SubjectItemsSpec(init, s);
      ItemsPeel(papers, SubjectItems, s);
      PeelLast(papers);
      if p.source != null {
        OnesSpec(p.subjects, s);
        assert SubjectItems(p) == Ones(p.subjects);
      }
    }
  }

  /** Keywords are counted by their text. */
  lemma {:induction false} KeywordItemsSpec(papers: seq<PaperFacts>, t: string)
    ensures Weight(Items(papers, KeywordItems), t) == KeywordUses(papers, t)
    ensures t in KeysOf(Items(papers, KeywordItems)) <==> KeywordUses(papers, t) > 0
    decreases |papers|
  {
    if papers != [] {
      var init, p := papers[..|papers| - 1], papers[|papers| - 1];
      KeywordItemsSpec(init, t);
      ItemsPeel(papers, KeywordItems, t);
      PeelLast(papers);
      OnesSpec(Texts(p.keywords), t);
      TextsOnes(p.keywords);
    }
  }

  lemma {:induction false} TextsOnes(keywords: seq<Keyword>)
    ensures Ones(Texts(keywords)) == KeywordItems(PaperFacts(0, None, null, [], [], keywords, null, []))
    ensures |Texts(keywords)| == |keywords|
    ensures forall j :: 0 <= j < |keywords| ==> Texts(keywords)[j] == keywords[j].keyword
    decreases |keywords|
  {
    if keywords != [] {
      TextsOnes(keywords[1..]);
    }
  }

  /** Funds are counted once per funded paper, under their agency with "NOT
      AVAILABLE" read as "unknown". */
  lemma {:induction false} FundItemSpec(papers: seq<PaperFacts>, key: JsonVal)
    ensures Weight(Items(papers, FundItem), key) == FundedUnder(papers, key)
    ensures key in KeysOf(Items(papers, FundItem)) <==> FundedUnder(papers, key) > 0
    decreases |papers|
  {
    if papers != [] {
      var init, p := papers[..|papers| - 1], papers[|papers| - 1];
      FundItemSpec(init, key);
      ItemsPeel(papers, FundItem, key);
      PeelLast(papers);
      if p.fund != null {
        assert FundItem(p)[..0] == [];
      }
    }
  }

  lemma {:induction false} NeverNotAvailable(papers: seq<PaperFacts>)
    ensures FundedUnder(papers, Str("NOT AVAILABLE")) == 0
  {
    if papers != [] {
      NeverNotAvailable(papers[1..]);
    }
  }

  // ---------------------------------------------------------------------
  // The counts as dicts

  /** The papers trend: for each year the number of paper links of that
      year, each year once; the values add up to the number of links. */
  lemma PapersTrendSpec(papers: seq<PaperFacts>)
    ensures var t := Tallied([], Items(papers, YearItem));
      && DistinctKeys(t) && Sum(t) == |papers|
      && (forall y :: Get(t, y) == multiset(Years(papers))[y])
      && (forall y :: y in KeysOf(t) <==> y in Years(papers))
  {
    TalliedSpec([], Items(papers, YearItem));
    forall y
      ensures Weight(Items(papers, YearItem), y) == multiset(Years(papers))[y]
      ensures y in KeysOf(Items(papers, YearItem)) <==> y in Years(papers)
    {
      YearItemsSpec(papers, y);
    }
    YearItemsSpec(papers, 0);
  }

  /** The citations trend: for each year of a paper the citations of the
      papers of that year; the values add up to all the citations. */
  lemma CitationsTrendSpec(papers: seq<PaperFacts>)
    ensures var t := Tallied([], Items(papers, CitationItem));
      && DistinctKeys(t) && Sum(t) == Citations(papers)
      && (forall y :: Get(t, y) == CitationsIn(papers, y))
      && (forall y :: y in KeysOf(t) <==> y in Years(papers))
  {
    TalliedSpec([], Items(papers, CitationItem));
    forall y
      ensures Weight(Items(papers, CitationItem), y) == CitationsIn(papers, y)
      ensures y in KeysOf(Items(papers, CitationItem)) <==> y in Years(papers)
    {
      CitationItemsSpec(papers, y);
    }
    CitationItemsSpec(papers, 0);
  }

  /** The co-authors: each author linked to the papers and not excluded,
      with the number of those links, kept only when it reaches a truthy
      threshold. */
  lemma CoAuthorsSpec(papers: seq<PaperFacts>, excluded: set<Author>, threshold: int)
    ensures var t := AtLeast(Tallied([], Items(papers, CoAuthorsBut(excluded))), threshold);
      && DistinctKeys(t)
      && (forall a :: a in KeysOf(t) <==>
            a !in excluded && LinksTo(papers, a) > 0 && (threshold != 0 ==> threshold <= LinksTo(papers, a)))
      && (forall a :: a in KeysOf(t) ==> Get(t, a) == LinksTo(papers, a))
  {
    var items := Items(papers, CoAuthorsBut(excluded));
    var c := Tallied([], items);
    TalliedSpec([], items);
    var t := AtLeast(c, threshold);
    forall a
      ensures a in KeysOf(t) <==>
        a !in excluded && LinksTo(papers, a) > 0 && (threshold != 0 ==> threshold <= LinksTo(papers, a))
      ensures a in KeysOf(t) ==> Get(t, a) == LinksTo(papers, a)
    {
      CoAuthorItemsSpec(papers, excluded, a);
      ThresholdSpec(c, threshold, a);
    }
  }

  /** The subjects: each subject of a paper's source, with the number of
      paper links whose source has it. */
  lemma SubjectsSpec(papers: seq<PaperFacts>)
    ensures var t := Tallied([], Items(papers, SubjectItems));
      && DistinctKeys(t)
      && (forall s :: Get(t, s) == SubjectUses(papers, s))
      && (forall s :: s in KeysOf(t) <==> SubjectUses(papers, s) > 0)
  {
    TalliedSpec([], Items(papers, SubjectItems));
    forall s
      ensures Weight(Items(papers, SubjectItems), s) == SubjectUses(papers, s)
      ensures s in KeysOf(Items(papers, SubjectItems)) <==> SubjectUses(papers, s) > 0
    {
      SubjectItemsSpec(papers, s);
    }
  }

  /** The keywords: each keyword text with the number of its uses, kept only
      when it reaches a truthy threshold. */
  lemma KeywordsSpec(papers: seq<PaperFacts>, threshold: int)
    ensures var t := AtLeast(Tallied([], Items(papers, KeywordItems)), threshold);
      && DistinctKeys(t)
      && (forall w :: w in KeysOf(t) <==>
            KeywordUses(papers, w) > 0 && (threshold != 0 ==> threshold <= KeywordUses(papers, w)))
      && (forall w :: w in KeysOf(t) ==> Get(t, w) == KeywordUses(papers, w))
  {
    var items := Items(papers, KeywordItems);
    var c := Tallied([], items);
    TalliedSpec([], items);
    var t := AtLeast(c, threshold);
    forall w
      ensures w in KeysOf(t) <==>
        KeywordUses(papers, w) > 0 && (threshold != 0 ==> threshold <= KeywordUses(papers, w))
      ensures w in KeysOf(t) ==> Get(t, w) == KeywordUses(papers, w)
    {
      KeywordItemsSpec(papers, w);
      ThresholdSpec(c, threshold, w);
    }
  }

  /** The dict `get_funds` starts from. */
  const NoFunds: Counter<JsonVal> := [(Str("unknown"), 0)]

  /** The funds: "unknown" first and always present, then each agency of a
      funded paper with its number of papers; "NOT AVAILABLE" is never a key. */
  lemma FundsSpec(papers: seq<PaperFacts>)
    ensures var t := Tallied(NoFunds, Items(papers, FundItem));
      && DistinctKeys(t) && t != [] && t[0].0 == Str("unknown")
      && (forall key :: Get(t, key) == FundedUnder(papers, key))
      && (forall key :: key in KeysOf(t) <==> key == Str("unknown") || FundedUnder(papers, key) > 0)
      && Str("NOT AVAILABLE") !in KeysOf(t)
  {
    TalliedSpec(NoFunds, Items(papers, FundItem));
    assert KeysOf(NoFunds) == [Str("unknown")];
    forall key
      ensures Weight(Items(papers, FundItem), key) == FundedUnder(papers, key)
      ensures key in KeysOf(Items(papers, FundItem)) <==> FundedUnder(papers, key) > 0
    {
      FundItemSpec(papers, key);
    }
    NeverNotAvailable(papers);
  }

  // ---------------------------------------------------------------------
  // Author

  /** `Author.get_papers_trend`: the author's paper links per year. */
  method AuthorPapersTrend(papers: seq<PaperFacts>) returns (trend: Counter<int>)
    ensures DistinctKeys(trend) && Sum(trend) == |papers|
    ensures forall y :: Get(trend, y) == multiset(Years(papers))[y]
    ensures forall y :: y in KeysOf(trend) <==> y in Years(papers)
  {
    trend := CountPapers([], papers, YearItem);
    PapersTrendSpec(papers);
  }

  /** `Author.get_citations_trend`: the citations of the author's papers per
      year, a missing count read as 0. */
  method AuthorCitationsTrend(papers: seq<PaperFacts>) returns (trend: Counter<int>)
    ensures DistinctKeys(trend) && Sum(trend) == Citations(papers)
    ensures forall y :: Get(trend, y) == CitationsIn(papers, y)
    ensures forall y :: y in KeysOf(trend) <==> y in Years(papers)
  {
    trend := CountPapers([], papers, CitationItem);
    CitationsTrendSpec(papers);
  }

  /** `Author.get_co_authors`: the authors the author's papers link to,
      other than the author, with the number of those links. */
  method AuthorCoAuthors(self: Author, papers: seq<PaperFacts>, threshold: int) returns (r: Counter<Author>)
    ensures DistinctKeys(r) && self !in KeysOf(r)
    ensures forall a :: a != self ==>
      (a in KeysOf(r) <==> LinksTo(papers, a) > 0 && (threshold != 0 ==> threshold <= LinksTo(papers, a)))
    ensures forall a :: a in KeysOf(r) ==> Get(r, a) == LinksTo(papers, a)
  {
    var counts := CountPapers([], papers, CoAuthorsBut({self}));
    r := AtLeast(counts, threshold);
    CoAuthorsSpec(papers, {self}, threshold);
  }

  /** `Author.get_subjects`: the subjects of the sources of the author's
      papers, with the number of papers under each. */
  method AuthorSubjects(papers: seq<PaperFacts>) returns (r: Counter<Subject>)
    ensures DistinctKeys(r)
    ensures forall s :: Get(r, s) == SubjectUses(papers, s)
    ensures forall s :: s in KeysOf(r) <==> SubjectUses(papers, s) > 0
  {
    r := CountPapers([], papers, SubjectItems);
    SubjectsSpec(papers);
  }

  /** `Author.get_keywords`: the keyword texts of the author's papers, with
      their number of uses. */
  method AuthorKeywords(papers: seq<PaperFacts>, threshold: int) returns (r: Counter<string>)
    ensures DistinctKeys(r)
    ensures forall w :: w in KeysOf(r) <==>
      KeywordUses(papers, w) > 0 && (threshold != 0 ==> threshold <= KeywordUses(papers, w))
    ensures forall w :: w in KeysOf(r) ==> Get(r, w) == KeywordUses(papers, w)
  {
    var counts := CountPapers([], papers, KeywordItems);
    r := AtLeast(counts, threshold);
    KeywordsSpec(papers, threshold);
  }

  /** `Author.get_funds`: the agencies funding the author's papers. */
  method AuthorFunds(papers: seq<PaperFacts>) returns (r: Counter<JsonVal>)
    ensures DistinctKeys(r) && r != [] && r[0].0 == Str("unknown")
    ensures forall key :: Get(r, key) == FundedUnder(papers, key)
    ensures forall key :: key in KeysOf(r) <==> key == Str("unknown") || FundedUnder(papers, key) > 0
    ensures Str("NOT AVAILABLE") !in KeysOf(r)
  {
    r := CountPapers(NoFunds, papers, FundItem);
    FundsSpec(papers);
  }

  // ---------------------------------------------------------------------
  // Department

  /** The authors of a department. */
  function Authors(members: seq<Member>): set<Author> {
    set m | m in members :: m.author
  }

  /** `Department.get_papers_trend`, with `total_papers`: the paper links of
      all members per year; the total counts every (member, paper) link. */
  method DepartmentPapersTrend(members: seq<Member>) returns (trend: Counter<int>, total: int)
    ensures DistinctKeys(trend) && total == Sum(trend) == |MemberPapers(members)|
    ensures forall y :: Get(trend, y) == multiset(Years(MemberPapers(members)))[y]
    ensures forall y :: y in KeysOf(trend) <==> y in Years(MemberPapers(members))
  {
    trend := CountMembers([], members, YearItem);
    PapersTrendSpec(MemberPapers(members));
    total := Sum(trend);
  }

  /** `Department.get_citations_trend`, with `total_citations`. */
  method DepartmentCitationsTrend(members: seq<Member>) returns (trend: Counter<int>, total: int)
    ensures DistinctKeys(trend) && total == Sum(trend) == Citations(MemberPapers(members))
    ensures forall y :: Get(trend, y) == CitationsIn(MemberPapers(members), y)
    ensures forall y :: y in KeysOf(trend) <==> y in Years(MemberPapers(members))
  {
    trend := CountMembers([], members, CitationItem);
    CitationsTrendSpec(MemberPapers(members));
    total := Sum(trend);
  }

  /** `Department.get_co_authors`: the authors the members' papers link to,
      other than the members themselves. */
  method DepartmentCoAuthors(members: seq<Member>, threshold: int) returns (r: Counter<Author>)
    ensures DistinctKeys(r)
    ensures forall a :: a in Authors(members) ==> a !in KeysOf(r)
    ensures forall a :: a !in Authors(members) ==>
      (a in KeysOf(r) <==>
        LinksTo(MemberPapers(members), a) > 0 && (threshold != 0 ==> threshold <= LinksTo(MemberPapers(members), a)))
    ensures forall a :: a in KeysOf(r) ==> Get(r, a) == LinksTo(MemberPapers(members), a)
  {
    var counts := CountMembers([], members, CoAuthorsBut(Authors(members)));
    r := AtLeast(counts, threshold);
    CoAuthorsSpec(MemberPapers(members), Authors(members), threshold);
  }

  /** `Department.get_subjects`. */
  method DepartmentSubjects(members: seq<Member>) returns (r: Counter<Subject>)
    ensures DistinctKeys(r)
    ensures forall s :: Get(r, s) == SubjectUses(MemberPapers(members), s)
    ensures forall s :: s in KeysOf(r) <==> SubjectUses(MemberPapers(members), s) > 0
  {
    r := CountMembers([], members, SubjectItems);
    SubjectsSpec(MemberPapers(members));
  }

  /** `Department.get_keywords`. */
  method DepartmentKeywords(members: seq<Member>, threshold: int) returns (r: Counter<string>)
    ensures DistinctKeys(r)
    ensures forall w :: w in KeysOf(r) <==>
      KeywordUses(MemberPapers(members), w) > 0
      && (threshold != 0 ==> threshold <= KeywordUses(MemberPapers(members), w))
    ensures forall w :: w in KeysOf(r) ==> Get(r, w) == KeywordUses(MemberPapers(members), w)
  {
    var counts := CountMembers([], members, KeywordItems);
    r := AtLeast(counts, threshold);
    KeywordsSpec(MemberPapers(members), threshold);
  }

  /** `Department.get_funds`. */
  method DepartmentFunds(members: seq<Member>) returns (r: Counter<JsonVal>)
    ensures DistinctKeys(r) && r != [] && r[0].0 == Str("unknown")
    ensures forall key :: Get(r, key) == FundedUnder(MemberPapers(members), key)
    ensures forall key :: key in KeysOf(r) <==> key == Str("unknown") || FundedUnder(MemberPapers(members), key) > 0
    ensures Str("NOT AVAILABLE") !in KeysOf(r)
  {
    r := CountMembers(NoFunds, members, FundItem);
    FundsSpec(MemberPapers(members));
  }

  // ---------------------------------------------------------------------
  // Percentile bins

  /** `int(x)` of a float: truncation toward zero. */
  function Trunc(x: real): (r: int)
    ensures 0.0 <= x ==> r as real <= x < r as real + 1.0
    ensures x < 0.0 ==> r as real - 1.0 < x <= r as real
  {
    if 0.0 <= x then x.Floor else -((-x).Floor)
  }

  /** A metric that `get_metrics` looks for: a percentile of the given year. */
  predicate IsPercentile(m: SourceMetric, year: int) {
    m.kind == "Percentile" && m.year == year
  }

  /** The truncated value of the first percentile of the year, if any. */
  function PercentileOf(metrics: seq<SourceMetric>, year: int): (r: Option<int>)
    ensures r.None? <==> forall j :: 0 <= j < |metrics| ==> !IsPercentile(metrics[j], year)
    ensures r.Some? ==>
      exists j :: 0 <= j < |metrics| && IsPercentile(metrics[j], year) && r.value == Trunc(metrics[j].value)
        && forall i :: 0 <= i < j ==> !IsPercentile(metrics[i], year)
  {
    if metrics == [] then None
    else if IsPercentile(metrics[0], year) then Some(Trunc(metrics[0].value))
    else
      var r := PercentileOf(metrics[1..], year);
      assert forall j :: 0 <= j < |metrics| - 1 ==> metrics[1..][j] == metrics[j + 1];
      r
  }

  /** The inner `for met in paper.source.metrics` loop, left at the first
      percentile of the paper's year. */
  method FindPercentile(metrics: seq<SourceMetric>, year: int) returns (percentile: Option<int>)
    ensures percentile == PercentileOf(metrics, year)
  {
    percentile := None;
    var i := 0;
    while i < |metrics|
      invariant 0 <= i <= |metrics|
      invariant PercentileOf(metrics[i..], year) == PercentileOf(metrics, year)
    {
      if IsPercentile(metrics[i], year) {
        percentile := Some(Trunc(metrics[i].value));
        return;
      }
      assert metrics[i..][1..] == metrics[i + 1..];
      i := i + 1;
    }
  }

  /** The position `xs[i]` reads in a list of length `n`, a negative index
      counting from the end; `None` where it raises `IndexError`. */
  function Slot(i: int, n: nat): (r: Option<nat>)
    ensures r.Some? <==> -(n as int) <= i < n
    ensures r.Some? ==> r.value < n && (r.value == i || r.value == n + i)
  {
    if 0 <= i < n then Some(i) else if -(n as int) <= i < 0 then Some(n + i) else None
  }

  /** The number of bins: one per percentile 0 to 99, and for an author a
      last one, "Undefined". */
  function BinCount(undefined: bool): nat {
    if undefined then 101 else 100
  }

  /** The bin a paper adds one to: `Ok(None)` when the paper is passed over
      (it has no source; for a department, also when it has no truthy
      percentile), `Err(IndexError)` when its percentile indexes past the
      bins. A falsy percentile (none, or 0) of an author's paper goes to the
      last bin. */
  function BinOf(p: PaperFacts, undefined: bool): (r: Result<Option<nat>>)
    ensures r.Ok? && r.value.Some? ==> r.value.value < BinCount(undefined)
    ensures p.source == null ==> r == Ok(None)
    ensures r.Err? ==> r.error == IndexError
  {
    if p.source == null then Ok(None)
    else
      var percentile := PercentileOf(p.metrics, p.year);
      if percentile.Some? && percentile.value != 0 then
        var s := Slot(percentile.value, BinCount(undefined));
        if s.Some? then Ok(Some(s.value)) else Err(IndexError)
      else if undefined then Ok(Some(BinCount(undefined) - 1))
      else Ok(None)
  }

  /** The bins after the papers, in order; the first `IndexError` ends the
      walk. */
  function Binned(counts: seq<int>, papers: seq<PaperFacts>, undefined: bool): (r: Result<seq<int>>)
    requires |counts| == BinCount(undefined)
    ensures r.Ok? ==> |r.value| == |counts|
    decreases |papers|
  {
    if papers == [] then Ok(counts)
    else
      var prev := Binned(counts, papers[..|papers| - 1], undefined);
      if prev.Err? then prev
      else match BinOf(papers[|papers| - 1], undefined)
        case Err(e) => Err(e)
        case Ok(None) => prev
        case Ok(Some(s)) => Ok(prev.value[s := prev.value[s] + 1])
  }

  /** The number of papers whose bin is `s`. */
  function InBin(papers: seq<PaperFacts>, undefined: bool, s: nat): nat {
    if papers == [] then 0
    else (if BinOf(papers[0], undefined) == Ok(Some(s)) then 1 else 0) + InBin(papers[1..], undefined, s)
  }

  lemma {:induction false} InBinLast(papers: seq<PaperFacts>, undefined: bool, s: nat)
    requires papers != []
    ensures InBin(papers, undefined, s) == InBin(papers[..|papers| - 1], undefined, s)
      + (if BinOf(papers[|papers| - 1], undefined) == Ok(Some(s)) then 1 else 0)
    decreases |papers|
  {
    if |papers| > 1 {
      InBinLast(papers[1..], undefined, s);
      assert papers[1..][..|papers| - 2] == papers[..|papers| - 1][1..];
    }
  }

  /** Binning succeeds exactly when no paper's percentile indexes past the
      bins, and then each bin holds its start count plus its papers. */
  lemma {:induction false} BinnedSpec(counts: seq<int>, papers: seq<PaperFacts>, undefined: bool)
    requires |counts| == BinCount(undefined)
    ensures Binned(counts, papers, undefined).Err? <==> exists j :: 0 <= j < |papers| && BinOf(papers[j], undefined).Err?
    ensures Binned(counts, papers, undefined).Err? ==> Binned(counts, papers, undefined).error == IndexError
    ensures Binned(counts, papers, undefined).Ok? ==>
      forall s :: 0 <= s < |counts| ==> Binned(counts, papers, undefined).value[s] == counts[s] + InBin(papers, undefined, s)
    decreases |papers|
  {
    if papers != [] {
      var init, p := papers[..|papers| - 1], papers[|papers| - 1];
      BinnedSpec(counts, init, undefined);
      assert forall j :: 0 <= j < |init| ==> init[j] == papers[j];
      if Binned(counts, papers, undefined).Ok? {
        forall s | 0 <= s < |counts|
          ensures Binned(counts, papers, undefined).value[s] == counts[s] + InBin(papers, undefined, s)
        {
          InBinLast(papers, undefined, s);
        }
      }
    }
  }

  /** A walk that has failed stays failed. */
  lemma {:induction false} BinnedStops(counts: seq<int>, papers: seq<PaperFacts>, i: nat, undefined: bool)
    requires |counts| == BinCount(undefined) && i <= |papers|
    requires Binned(counts, papers[..i], undefined).Err?
    ensures Binned(counts, papers, undefined) == Binned(counts, papers[..i], undefined)
    decreases |papers| - i
  {
    if i < |papers| {
      var init := papers[..|papers| - 1];
      assert init[..i] == papers[..i];
      BinnedStops(counts, init, i, undefined);
    } else {
      assert papers[..i] == papers;
    }
  }

  lemma {:induction false} BinnedAppend(counts: seq<int>, a: seq<PaperFacts>, b: seq<PaperFacts>, undefined: bool)
    requires |counts| == BinCount(undefined)
    ensures Binned(counts, a + b, undefined)
      == if Binned(counts, a, undefined).Err? then Binned(counts, a, undefined)
         else Binned(Binned(counts, a, undefined).value, b, undefined)
    decreases |b|
  {
    if b == [] {
      assert a + b == a;
    } else {
      assert (a + b)[..|a + b| - 1] == a + b[..|b| - 1];
      BinnedAppend(counts, a, b[..|b| - 1], undefined);
    }
  }

  /** The loop of `get_metrics` over one author's paper links. */
  method CountBins(counts: seq<int>, papers: seq<PaperFacts>, undefined: bool) returns (r: Result<seq<int>>)
    requires |counts| == BinCount(undefined)
    ensures r == Binned(counts, papers, undefined)
  {
    var bins := counts;
    for i := 0 to |papers|
      invariant Binned(counts, papers[..i], undefined) == Ok(bins)
    {
      var p := papers[i];
      assert papers[..i + 1][..i] == papers[..i];
      if p.source != null {
        var percentile := FindPercentile(p.metrics, p.year);
        if percentile.Some? && percentile.value != 0 {
          var s := Slot(percentile.value, |bins|);
          if s.None? {
            r := Err(IndexError);
            BinnedStops(counts, papers, i + 1, undefined);
            return;
          }
          bins := bins[s.value := bins[s.value] + 1];
        } else if undefined {
          bins := bins[|bins| - 1 := bins[|bins| - 1] + 1];
        }
      }
    }
    assert papers[..|papers|] == papers;
    r := Ok(bins);
  }

  /** A bin's tag: its percentile, or "Undefined" for the last bin of an
      author. */
  datatype Label = Pct(n: int) | Undefined

  /** The `[tag, count]` pairs of the bins. */
  function Labelled(counts: seq<int>): (r: seq<(Label, int)>)
    ensures |r| == |counts|
    ensures forall j :: 0 <= j < |counts| ==> r[j] == (if j < 100 then Pct(j) else Undefined, counts[j])
  {
    seq(|counts|, j requires 0 <= j < |counts| => (if j < 100 then Pct(j) else Undefined, counts[j]))
  }

  /** `[label for _ in range(count)]`. */
  function Repeat(tag: Label, count: int): (r: seq<Label>)
    ensures |r| == if count < 0 then 0 else count
    ensures forall j :: 0 <= j < |r| ==> r[j] == tag
  {
    seq(if count < 0 then 0 else count, _ => tag)
  }

  /** Each tag repeated as often as its count, in order. */
  function Expand(rows: seq<(Label, int)>): seq<Label>
    decreases |rows|
  {
    if rows == [] then []
    else Expand(rows[..|rows| - 1]) + Repeat(rows[|rows| - 1].0, rows[|rows| - 1].1)
  }

  /** The histogram has one entry per counted paper, and holds exactly the
      labels whose count is positive. */
  lemma {:induction false} ExpandSpec(rows: seq<(Label, int)>, tag: Label)
    requires forall j :: 0 <= j < |rows| ==> 0 <= rows[j].1
    ensures |Expand(rows)| == Sum(rows)
    ensures tag in Expand(rows) <==> exists j :: 0 <= j < |rows| && rows[j].0 == tag && rows[j].1 > 0
    decreases |rows|
  {
    if rows != [] {
      var init, last := rows[..|rows| - 1], rows[|rows| - 1];
      ExpandSpec(init, tag);
      SumAppend(init, [last]);
      assert rows == init + [last];
      if last.1 > 0 {
        assert Repeat(last.0, last.1)[0] == last.0;
      }
      assert tag in Repeat(last.0, last.1) <==> last.0 == tag && last.1 > 0;
      if tag in Expand(rows) && !(tag in Expand(init)) {
        assert rows[|rows| - 1].0 == tag && rows[|rows| - 1].1 > 0;
      }
      if exists j :: 0 <= j < |rows| && rows[j].0 == tag && rows[j].1 > 0 {
        var j :| 0 <= j < |rows| && rows[j].0 == tag && rows[j].1 > 0;
        if j < |init| {
          assert init[j] == rows[j];
        }
      }
    }
  }

  /** The `histogram` branch: each tag extended by as many copies as its
      count. */
  method ToHistogram(rows: seq<(Label, int)>) returns (labels: seq<Label>)
    ensures labels == Expand(rows)
  {
    labels := [];
    for i := 0 to |rows|
      invariant labels == Expand(rows[..i])
    {
      labels := labels + Repeat(rows[i].0, rows[i].1);
      assert rows[..i + 1][..i] == rows[..i];
    }
    assert rows[..|rows|] == rows;
  }

  /** What `get_metrics` returns: the `[tag, count]` pairs, or with
      `histogram` the expanded labels. */
  datatype Metrics = Table(rows: seq<(Label, int)>) | Histogram(labels: seq<Label>)

  /** The metrics of the bins after binning. */
  function MetricsOf(bins: Result<seq<int>>, histogram: bool): (r: Result<Metrics>)
    ensures r.Ok? <==> bins.Ok?
    ensures r.Ok? ==> (r.value.Table? <==> !histogram)
  {
    if bins.Err? then Err(bins.error)
    else if histogram then Ok(Histogram(Expand(Labelled(bins.value))))
    else Ok(Table(Labelled(bins.value)))
  }

  /** The end of `get_metrics`: the pairs, or the histogram of them. */
  method Report(bins: Result<seq<int>>, histogram: bool) returns (r: Result<Metrics>)
    ensures r == MetricsOf(bins, histogram)
  {
    if bins.Err? {
      return Err(bins.error);
    }
    var rows := Labelled(bins.value);
    if histogram {
      var labels := ToHistogram(rows);
      r := Ok(Histogram(labels));
    } else {
      r := Ok(Table(rows));
    }
  }

  /** `Author.get_metrics`: 100 percentile bins and "Undefined"; an
      `IndexError` from a percentile past the bins escapes. */
  method AuthorMetrics(papers: seq<PaperFacts>, histogram: bool) returns (r: Result<Metrics>)
    ensures r == MetricsOf(Binned(seq(101, _ => 0), papers, true), histogram)
    ensures r.Err? <==> exists j :: 0 <= j < |papers| && BinOf(papers[j], true).Err?
    ensures r.Err? ==> r.error == IndexError
    ensures r.Ok? ==> (r.value.Table? <==> !histogram)
    ensures r.Ok? && r.value.Table? ==>
      |r.value.rows| == 101 && forall s :: 0 <= s < 101 ==> r.value.rows[s] == (if s < 100 then Pct(s) else Undefined, InBin(papers, true, s))
  {
    var bins := CountBins(seq(101, _ => 0), papers, true);
    BinnedSpec(seq(101, _ => 0), papers, true);
    r := Report(bins, histogram);
  }

  /** The department's loop over its authors, binning each one's papers. */
  method CountMemberBins(counts: seq<int>, members: seq<Member>) returns (bins: Result<seq<int>>)
    requires |counts| == BinCount(false)
    ensures bins == Binned(counts, MemberPapers(members), false)
  {
    bins := Ok(counts);
    var i := 0;
    while i < |members| && bins.Ok?
      invariant 0 <= i <= |members|
      invariant bins == Binned(counts, MemberPapers(members[..i]), false)
    {
      assert members[..i + 1][..i] == members[..i];
      BinnedAppend(counts, MemberPapers(members[..i]), members[i].papers, false);
      bins := CountBins(bins.value, members[i].papers, false);
      i := i + 1;
    }
    if bins.Err? {
      MemberPapersAppend(members[..i], members[i..]);
      assert members[..i] + members[i..] == members;
      BinnedAppend(counts, MemberPapers(members[..i]), MemberPapers(members[i..]), false);
    } else {
      assert members[..i] == members;
    }
  }

  /** `Department.get_metrics`: 100 percentile bins only; a paper without a
      truthy percentile is not counted, and percentile 100 raises
      `IndexError`. */
  method DepartmentMetrics(members: seq<Member>, histogram: bool) returns (r: Result<Metrics>)
    ensures r == MetricsOf(Binned(seq(100, _ => 0), MemberPapers(members), false), histogram)
    ensures r.Err? <==> exists j :: 0 <= j < |MemberPapers(members)| && BinOf(MemberPapers(members)[j], false).Err?
    ensures r.Err? ==> r.error == IndexError
    ensures r.Ok? ==> (r.value.Table? <==> !histogram)
    ensures r.Ok? && r.value.Table? ==>
      |r.value.rows| == 100 && forall s :: 0 <= s < 100 ==> r.value.rows[s] == (Pct(s), InBin(MemberPapers(members), false, s))
  {
    var bins := CountMemberBins(seq(100, _ => 0), members);
    BinnedSpec(seq(100, _ => 0), MemberPapers(members), false);
    r := Report(bins, histogram);
  }

  lemma {:induction false} MemberPapersAppend(a: seq<Member>, b: seq<Member>)
    ensures MemberPapers(a + b) == MemberPapers(a) + MemberPapers(b)
    decreases |b|
  {
    if b == [] {
      assert a + b == a;
    } else {
      assert (a + b)[..|a + b| - 1] == a + b[..|b| - 1];
      MemberPapersAppend(a, b[..|b| - 1]);
    }
  }

  // ---------------------------------------------------------------------
  // Sets

  /** The institutions of an author's departments (`None` for a department
      without one). */
  function InstitutionsOf(author: Author): set<Institution?>
    reads author, author.departments
  {
    set d | d in author.departments :: d.institution
  }

  /** `Author.get_institutions`, with `total_institutions`: the institutions
      of the author's departments, never more than the departments. */
  method AuthorInstitutions(author: Author) returns (r: set<Institution?>, total: nat)
    ensures r == InstitutionsOf(author)
    ensures total == |r| <= |author.departments|
  {
    r := {};
    var departments := author.departments;
    for i := 0 to |departments|
      invariant r == set d | d in departments[..i] :: d.institution
      invariant |r| <= i
    {
      assert departments[..i + 1] == departments[..i] + [departments[i]];
      r := r + {departments[i].institution};
    }
    assert departments[..|departments|] == departments;
    total := |r|;
  }

  /** The countries of the institutions (`None` for an institution without
      one); a missing institution has none. */
  function CountriesIn(institutions: set<Institution?>): set<Country?>
    reads institutions - {null}
  {
    set i | i in institutions && i != null :: i.country
  }

  lemma CountriesAdd(institutions: set<Institution?>, inst: Institution?)
    ensures CountriesIn(institutions + {inst})
      == CountriesIn(institutions) + (if inst == null then {} else {inst.country})
  {
  }

  /** `Author.get_countries`, with `total_countries`: the countries of the
      author's institutions, never more than the institutions. */
  method AuthorCountries(author: Author) returns (r: set<Country?>, total: nat)
    ensures r == CountriesIn(InstitutionsOf(author))
    ensures total == |r| <= |InstitutionsOf(author)|
  {
    var institutions, _ := AuthorInstitutions(author);
    r := {};
    var done := {};
    while done != institutions
      invariant done <= institutions
      invariant r == CountriesIn(done)
      invariant |r| <= |done|
      decreases |institutions - done|
    {
      var inst :| inst in institutions - done;
      CountriesAdd(done, inst);
      if inst != null {
        r := r + {inst.country};
      }
      done := done + {inst};
    }
    total := |r|;
  }

  /** The sources of the papers (`None` for a paper without one). */
  function SourcesOf(papers: seq<PaperFacts>): set<Source?> {
    set p | p in papers :: p.source
  }

  /** The loop of `get_sources` over one author's paper links. */
  method AddSources(sources: set<Source?>, papers: seq<PaperFacts>) returns (r: set<Source?>)
    ensures r == sources + SourcesOf(papers)
    ensures |r| <= |sources| + |papers|
  {
    r := sources;
    for i := 0 to |papers|
      invariant r == sources + SourcesOf(papers[..i])
      invariant |r| <= |sources| + i
    {
      assert papers[..i + 1] == papers[..i] + [papers[i]];
      r := r + {papers[i].source};
    }
    assert papers[..|papers|] == papers;
  }

  /** `Author.get_sources`, with `total_sources`: never more sources than
      paper links. */
  method AuthorSources(papers: seq<PaperFacts>) returns (r: set<Source?>, total: nat)
    ensures r == SourcesOf(papers)
    ensures total == |r| <= |papers|
  {
    r := AddSources({}, papers);
    total := |r|;
  }

  /** `Department.get_sources`, with `total_sources`. */
  method DepartmentSources(members: seq<Member>) returns (r: set<Source?>, total: nat)
    ensures r == SourcesOf(MemberPapers(members))
    ensures total == |r| <= |MemberPapers(members)|
  {
    r := {};
    for i := 0 to |members|
      invariant r == SourcesOf(MemberPapers(members[..i]))
      invariant |r| <= |MemberPapers(members[..i])|
    {
      assert members[..i + 1][..i] == members[..i];
      r := AddSources(r, members[i].papers);
    }
    assert members[..|members|] == members;
    total := |r|;
  }
}
