/** The harvest session loop of `get_amazon_data_books`: pages are requested
    in order from page 1, each page's containers are scanned in order, new
    records are accepted under a session-wide set of seen titles, and the
    loop stops on the target count, the page bound, an empty page, a page
    that adds nothing, or a failed request. The site is an input: what it
    answers for each page number. */
module Session {
  import opened Wrappers
  import opened Books
  import opened Extraction

  /** `max_pages`: the loop never requests a page beyond this one. */
  const MaxPages := 10

  /** What a request for one page yields: a request or unexpected error, or
      the result containers found on the page (possibly none). */
  datatype Page = FetchFailed | Content(containers: seq<Container>)

  /** The site's answer for every page number. */
  type Site = int -> Page

  /** Why the loop ended. */
  datatype Stop = TargetReached | PageBound | NoContainers | NoNewRecords | RequestFailed

  /** The loop's state: the accepted records (`books`) and `seen_titles`. */
  datatype Session = Session(books: seq<Book>, seen: set<string>)

  /** The end of a run: its final state, why it stopped, and how many pages
      it requested (pages 1 to `pages`). */
  datatype Outcome = Outcome(books: seq<Book>, seen: set<string>, stop: Stop, pages: int)

  /** One container examined: a candidate whose title was not seen before is
      appended and its title recorded; anything else leaves the state as is. */
  function Step(s: Session, c: Container): Session
  {
    match Candidate(c)
    case None => s
    case Some(b) =>
      if b.title in s.seen then s else Session(s.books + [b], s.seen + {b.title})
  }

  /** The containers of one page examined in order; scanning stops right after
      the record that brings the total to n. */
  function ScanPage(s: Session, cs: seq<Container>, n: int): Session
    decreases |cs|
  {
    if cs == [] then s
    else
      var next := Step(s, cs[0]);
      if |next.books| > |s.books| && |next.books| >= n then next
      else ScanPage(next, cs[1..], n)
  }

  /** The session loop from `page` on, in state s. */
  function Run(site: Site, n: int, page: int, s: Session): Outcome
    requires 1 <= page <= MaxPages + 1
    decreases MaxPages + 1 - page
  {
    if !(|s.books| < n && page <= MaxPages) then
      Outcome(s.books, s.seen, if |s.books| >= n then TargetReached else PageBound, page - 1)
    else
      match site(page)
      case FetchFailed => Outcome(s.books, s.seen, RequestFailed, page)
      case Content(cs) =>
        if cs == [] then Outcome(s.books, s.seen, NoContainers, page)
        else
          var next := ScanPage(s, cs, n);
          if |next.books| == |s.books| then Outcome(next.books, next.seen, NoNewRecords, page)
          else Run(site, n, page + 1, next)
  }

  /** A whole session asking for n records. */
  function Harvest(site: Site, n: int): Outcome
  {
    Run(site, n, 1, Session([], {}))
  }

  // ---------------------------------------------------------------------
  // An independent description of what a session accepts

  /** Every candidate of cs, in order, whose title is neither in `seen` nor
      the title of an earlier candidate: what an unbounded scan accepts. */
  function Fresh(seen: set<string>, cs: seq<Container>): seq<Book>
    decreases |cs|
  {
    if cs == [] then []
    else
      var cand := Candidate(cs[0]);
      if cand.Some? && cand.value.title !in seen then
        [cand.value] + Fresh(seen + {cand.value.title}, cs[1..])
      else Fresh(seen, cs[1..])
  }

  /** The containers found on a page; a failed request contributes none. */
  function PageItems(p: Page): seq<Container>
  {
    if p.Content? then p.containers else []
  }

  /** The containers of pages lo..hi, in page order. */
  function PagesItems(site: Site, lo: int, hi: int): seq<Container>
    decreases hi - lo
  {
    if lo > hi then [] else PageItems(site(lo)) + PagesItems(site, lo + 1, hi)
  }

  /** The records Fresh yields have distinct titles, none of them seen before. */
  lemma {:induction false} FreshDistinct(seen: set<string>, cs: seq<Container>)
    ensures DistinctTitles(Fresh(seen, cs))
    ensures Titles(Fresh(seen, cs)) !! seen
    decreases |cs|
  {
    if cs != [] {
      var cand := Candidate(cs[0]);
      if cand.Some? && cand.value.title !in seen {
        var b := cand.value;
        var rest := Fresh(seen + {b.title}, cs[1..]);
        FreshDistinct(seen + {b.title}, cs[1..]);
        var f := [b] + rest;
        TitlesPrepend(b, rest);
        forall i, k | 0 <= i < k < |f| ensures f[i].title != f[k].title {
          if i == 0 {
            assert f[k].title == rest[k - 1].title;
            assert rest[k - 1].title in Titles(rest);
          } else {
            assert f[i] == rest[i - 1] && f[k] == rest[k - 1];
          }
        }
      } else {
        FreshDistinct(seen, cs[1..]);
      }
    }
  }

  /** Every record Fresh yields is the candidate of one of the containers. */
  lemma {:induction false} FreshFromCandidates(seen: set<string>, cs: seq<Container>)
    ensures forall b :: b in Fresh(seen, cs) ==> exists c :: c in cs && Candidate(c) == Some(b)
    decreases |cs|
  {
    if cs != [] {
      var cand := Candidate(cs[0]);
      if cand.Some? && cand.value.title !in seen {
        FreshFromCandidates(seen + {cand.value.title}, cs[1..]);
        forall b | b in Fresh(seen, cs) ensures exists c :: c in cs && Candidate(c) == Some(b) {
          if b == cand.value {
            assert cs[0] in cs;
          } else {
            assert b in Fresh(seen + {cand.value.title}, cs[1..]);
            var c :| c in cs[1..] && Candidate(c) == Some(b);
            assert c in cs;
          }
        }
      } else {
        FreshFromCandidates(seen, cs[1..]);
        forall b | b in Fresh(seen, cs) ensures exists c :: c in cs && Candidate(c) == Some(b) {
          var c :| c in cs[1..] && Candidate(c) == Some(b);
          assert c in cs;
        }
      }
    }
  }

  /** Every record Fresh yields has a title of at least three characters. */
  lemma FreshTitleLength(seen: set<string>, cs: seq<Container>, i: int)
    requires 0 <= i < |Fresh(seen, cs)|
    ensures |Fresh(seen, cs)[i].title| >= MinTitleLength
  {
    var b := Fresh(seen, cs)[i];
    FreshFromCandidates(seen, cs);
    assert b in Fresh(seen, cs);
    var c :| c in cs && Candidate(c) == Some(b);
  }

  /** Fresh over two pieces: the second piece is filtered against the titles
      the first one contributed as well. */
  lemma {:induction false} FreshAppend(seen: set<string>, a: seq<Container>, b: seq<Container>)
    ensures Fresh(seen, a + b) == Fresh(seen, a) + Fresh(seen + Titles(Fresh(seen, a)), b)
    decreases |a|
  {
    if a == [] {
      assert a + b == b;
      assert Fresh(seen, a) == [];
      assert Titles([]) == {};
      assert seen + Titles(Fresh(seen, a)) == seen;
    } else {
      assert (a + b)[0] == a[0];
      assert (a + b)[1..] == a[1..] + b;
      var cand := Candidate(a[0]);
      if cand.Some? && cand.value.title !in seen {
        var t := cand.value.title;
        FreshAppend(seen + {t}, a[1..], b);
        var rest := Fresh(seen + {t}, a[1..]);
        TitlesPrepend(cand.value, rest);
        assert seen + {t} + Titles(rest) == seen + Titles([cand.value] + rest);
      } else {
        FreshAppend(seen, a[1..], b);
      }
    }
  }

  /** Scanning one page accepts exactly the first records of Fresh, as many
      as are still missing to reach n, and records their titles. */
  lemma {:induction false} ScanPageTakesFresh(s: Session, cs: seq<Container>, n: int)
    requires |s.books| < n
    ensures var k := Take(Fresh(s.seen, cs), n - |s.books|);
            ScanPage(s, cs, n) == Session(s.books + k, s.seen + Titles(k))
    decreases |cs|, 1
  {
    if cs == [] {
      assert Titles([]) == {};
    } else {
      var cand := Candidate(cs[0]);
      if cand.Some? && cand.value.title !in s.seen {
        ScanPageAccepts(s, cs, n);
      } else {
        assert Step(s, cs[0]) == s;
        assert ScanPage(s, cs, n) == ScanPage(s, cs[1..], n);
        assert Fresh(s.seen, cs) == Fresh(s.seen, cs[1..]);
        ScanPageTakesFresh(s, cs[1..], n);
      }
    }
  }

  /** ScanPageTakesFresh when the first container is accepted. */
  lemma {:induction false} ScanPageAccepts(s: Session, cs: seq<Container>, n: int)
    requires |s.books| < n && cs != []
    requires Candidate(cs[0]).Some? && Candidate(cs[0]).value.title !in s.seen
    ensures var k := Take(Fresh(s.seen, cs), n - |s.books|);
            ScanPage(s, cs, n) == Session(s.books + k, s.seen + Titles(k))
    decreases |cs|, 0
  {
    var b := Candidate(cs[0]).value;
    var next := Session(s.books + [b], s.seen + {b.title});
    assert Step(s, cs[0]) == next;
    var rest := Fresh(next.seen, cs[1..]);
    assert Fresh(s.seen, cs) == [b] + rest;
    if |next.books| >= n {
      assert ScanPage(s, cs, n) == next;
      TakeCons(b, rest, n - |s.books|);
      TitlesPrepend(b, []);
      assert [b] + [] == [b];
    } else {
      assert ScanPage(s, cs, n) == ScanPage(next, cs[1..], n);
      ScanPageTakesFresh(next, cs[1..], n);
      AcceptedThenTaken(s, b, rest, n);
    }
  }

  /** Accepting b and then the first records of `rest` is taking the first
      records of [b] + rest. */
  lemma AcceptedThenTaken(s: Session, b: Book, rest: seq<Book>, n: int)
    requires |s.books| < n
    ensures var k' := Take(rest, n - |s.books| - 1);
            var k := Take([b] + rest, n - |s.books|);
            s.books + [b] + k' == s.books + k && (s.seen + {b.title}) + Titles(k') == s.seen + Titles(k)
  {
    var k' := Take(rest, n - |s.books| - 1);
    TakeCons(b, rest, n - |s.books|);
    TitlesPrepend(b, k');
    assert s.books + [b] + k' == s.books + ([b] + k');
  }

  lemma TakeCons<T>(x: T, s: seq<T>, m: int)
    requires m >= 1
    ensures Take([x] + s, m) == [x] + Take(s, m - 1)
  {
    if m - 1 < |s| {
      assert ([x] + s)[..m] == [x] + s[..m - 1];
    }
  }

  /** Take over a concatenation whose first part fits. */
  lemma TakeAppend<T>(f: seq<T>, g: seq<T>, m: int)
    requires |f| <= m
    ensures Take(f + g, m) == f + Take(g, m - |f|)
  {
  }

  /** The records a session accepts from `page` on are exactly the first ones
      of Fresh over the containers of the pages it requested, in page order
      and then container order, cut off at n. */
  lemma {:induction false} RunTakesFresh(site: Site, n: int, page: int, s: Session)
    requires 1 <= page <= MaxPages + 1
    ensures var o := Run(site, n, page, s);
            var k := Take(Fresh(s.seen, PagesItems(site, page, o.pages)), n - |s.books|);
            o.books == s.books + k && o.seen == s.seen + Titles(k)
    decreases MaxPages + 1 - page, 1
  {
    var o := Run(site, n, page, s);
    RunPages(site, n, page, s);
    if o.pages == page - 1 {
      RunTakesFreshNoPage(site, n, page, s);
    } else if o.pages == page {
      RunTakesFreshOnPage(site, n, page, s);
    } else {
      RunGoesOn(site, n, page, s);
      var cs := site(page).containers;
      var f := Fresh(s.seen, cs);
      RunTakesFreshLater(site, n, page, s, cs, Session(s.books + f, s.seen + Titles(f)));
    }
  }

  /** RunTakesFresh for a run that goes on after its first page, stated
      over the run from the next page on. */
  lemma {:induction false} RunTakesFreshLater(site: Site, n: int, page: int, s: Session, cs: seq<Container>, next: Session)
    requires 1 <= page <= MaxPages && site(page) == Content(cs)
    requires var f := Fresh(s.seen, cs);
             |s.books| + |f| < n && next == Session(s.books + f, s.seen + Titles(f))
    ensures var o := Run(site, n, page + 1, next);
            var k := Take(Fresh(s.seen, PagesItems(site, page, o.pages)), n - |s.books|);
            o.books == s.books + k && o.seen == s.seen + Titles(k)
    decreases MaxPages + 1 - page, 0
  {
    var o := Run(site, n, page + 1, next);
    RunTakesFresh(site, n, page + 1, next);
    RunPages(site, n, page + 1, next);
    var rest := PagesItems(site, page + 1, o.pages);
    assert PagesItems(site, page, o.pages) == cs + rest;
    RunTakesFreshBelow(s, cs, rest, n, next, o);
  }

  /** The inductive step of RunTakesFresh for a page (its containers cs)
      after which the session is still short of n: `next` is the state after
      the page, `rest` the containers of the pages requested after it, and
      the page's fresh records were all kept. */
  lemma RunTakesFreshBelow(s: Session, cs: seq<Container>, rest: seq<Container>, n: int, next: Session, o: Outcome)
    requires var f := Fresh(s.seen, cs);
             |s.books| + |f| < n && next == Session(s.books + f, s.seen + Titles(f))
    requires var k := Take(Fresh(next.seen, rest), n - |next.books|);
             o.books == next.books + k && o.seen == next.seen + Titles(k)
    ensures var k := Take(Fresh(s.seen, cs + rest), n - |s.books|);
            o.books == s.books + k && o.seen == s.seen + Titles(k)
  {
    var f := Fresh(s.seen, cs);
    FreshAppend(s.seen, cs, rest);
    StepBelowTarget(s.books, s.seen, f, Fresh(s.seen + Titles(f), rest), n - |s.books|, o);
  }

  /** RunTakesFresh for a run that requests no page at all. */
  lemma RunTakesFreshNoPage(site: Site, n: int, page: int, s: Session)
    requires 1 <= page <= MaxPages + 1
    requires !(|s.books| < n && page <= MaxPages)
    ensures var o := Run(site, n, page, s);
            var k := Take(Fresh(s.seen, PagesItems(site, page, o.pages)), n - |s.books|);
            o.books == s.books + k && o.seen == s.seen + Titles(k)
  {
    assert PagesItems(site, page, page - 1) == [];
    assert Titles([]) == {};
  }

  /** RunTakesFresh for a run that stops on the first page it requests. */
  lemma RunTakesFreshOnPage(site: Site, n: int, page: int, s: Session)
    requires 1 <= page <= MaxPages + 1
    requires Run(site, n, page, s).pages == page
    ensures var o := Run(site, n, page, s);
            var k := Take(Fresh(s.seen, PagesItems(site, page, page)), n - |s.books|);
            o.books == s.books + k && o.seen == s.seen + Titles(k)
  {
    RunPages(site, n, page, s);
    FirstPageFresh(site, s.seen, page);
    if site(page).Content? && site(page).containers != [] {
      var cs := site(page).containers;
      var next := ScanPage(s, cs, n);
      ScanPageTakesFresh(s, cs, n);
      if |next.books| != |s.books| {
        RunPages(site, n, page + 1, next);
      }
    } else {
      assert Titles([]) == {};
    }
  }

  /** The page left the session below its target: everything it yielded
      (f) was kept, and the records of the later pages (g) fill the
      remaining room, which is taking from f + g. */
  lemma StepBelowTarget(books: seq<Book>, seen: set<string>, f: seq<Book>, g: seq<Book>, m: int, o: Outcome)
    requires |f| < m
    requires var h := Take(g, m - |f|);
             o.books == (books + f) + h && o.seen == (seen + Titles(f)) + Titles(h)
    ensures o.books == books + Take(f + g, m) && o.seen == seen + Titles(Take(f + g, m))
  {
    var h := Take(g, m - |f|);
    TakeAppend(f, g, m);
    TitlesConcat(f, h);
    assert (books + f) + h == books + (f + h);
  }

  lemma TitlesConcat(a: seq<Book>, b: seq<Book>)
    ensures Titles(a + b) == Titles(a) + Titles(b)
  {
    var ab := a + b;
    forall t | t in Titles(a) ensures t in Titles(ab) {
      var i :| 0 <= i < |a| && a[i].title == t;
      assert ab[i].title == t;
    }
    forall t | t in Titles(b) ensures t in Titles(ab) {
      var i :| 0 <= i < |b| && b[i].title == t;
      assert ab[|a| + i].title == t;
    }
    forall t | t in Titles(ab) ensures t in Titles(a) + Titles(b) {
      var i :| 0 <= i < |ab| && ab[i].title == t;
      if i < |a| { assert a[i].title == t; } else { assert b[i - |a|].title == t; }
    }
  }

  /** The pages a run requests stay within the page bound. */
  lemma {:induction false} RunPages(site: Site, n: int, page: int, s: Session)
    requires 1 <= page <= MaxPages + 1
    ensures page - 1 <= Run(site, n, page, s).pages <= MaxPages
    ensures Run(site, n, page, s).pages == page - 1 <==> !(|s.books| < n && page <= MaxPages)
    decreases MaxPages + 1 - page
  {
    if |s.books| < n && page <= MaxPages && site(page).Content? && site(page).containers != [] {
      var next := ScanPage(s, site(page).containers, n);
      if |next.books| != |s.books| {
        RunPages(site, n, page + 1, next);
      }
    }
  }

  /** Why a run stopped, in terms of its inputs: the target iff the records
      reached n; the page bound only after the last page; otherwise the last
      requested page failed, was empty, or had only rejected or already seen
      containers. The converse directions are RunPagesBeforeLast and
      RunLastPage. */
  lemma {:induction false} RunStops(site: Site, n: int, page: int, s: Session)
    requires 1 <= page <= MaxPages + 1
    ensures var o := Run(site, n, page, s);
            && (o.stop == TargetReached <==> |o.books| >= n)
            && (o.stop == PageBound ==> o.pages == MaxPages)
            && (o.stop == RequestFailed ==> site(o.pages) == FetchFailed)
            && (o.stop == NoContainers ==> site(o.pages) == Content([]))
            && (o.stop == NoNewRecords ==>
                  && site(o.pages).Content? && site(o.pages).containers != []
                  && Fresh(o.seen, site(o.pages).containers) == [])
    decreases MaxPages + 1 - page
  {
    RunPages(site, n, page, s);
    if page < Run(site, n, page, s).pages {
      RunGoesOn(site, n, page, s);
      var f := Fresh(s.seen, site(page).containers);
      RunStops(site, n, page + 1, Session(s.books + f, s.seen + Titles(f)));
    } else {
      RunStopsHere(site, n, page, s);
    }
  }

  /** RunStops for a run that requests at most one page. */
  lemma RunStopsHere(site: Site, n: int, page: int, s: Session)
    requires 1 <= page <= MaxPages + 1
    requires Run(site, n, page, s).pages <= page
    ensures var o := Run(site, n, page, s);
            && (o.stop == TargetReached <==> |o.books| >= n)
            && (o.stop == PageBound ==> o.pages == MaxPages)
            && (o.stop == RequestFailed ==> site(o.pages) == FetchFailed)
            && (o.stop == NoContainers ==> site(o.pages) == Content([]))
            && (o.stop == NoNewRecords ==>
                  && site(o.pages).Content? && site(o.pages).containers != []
                  && Fresh(o.seen, site(o.pages).containers) == [])
  {
    if |s.books| < n && page <= MaxPages && site(page).Content? && site(page).containers != [] {
      var cs := site(page).containers;
      var next := ScanPage(s, cs, n);
      ScanPageTakesFresh(s, cs, n);
      if |next.books| != |s.books| {
        RunPages(site, n, page + 1, next);
      } else {
        assert Titles([]) == {};
        assert next.seen == s.seen;
      }
    }
  }

  /** Fresh over the pages from `page` to q splits at the first page: that
      page's fresh records, then those of the later pages, which must also be
      new with respect to the first page's. */
  lemma PagesFreshSplit(site: Site, seen: set<string>, page: int, q: int)
    requires page <= q
    ensures var f := Fresh(seen, PageItems(site(page)));
            Fresh(seen, PagesItems(site, page, q)) == f + Fresh(seen + Titles(f), PagesItems(site, page + 1, q))
  {
    FreshAppend(seen, PageItems(site(page)), PagesItems(site, page + 1, q));
  }

  /** The step shared by the proofs below: a requested page after which the
      run goes on was fetched, had containers, and added all of its fresh
      records without reaching n. */
  lemma {:induction false} RunGoesOn(site: Site, n: int, page: int, s: Session)
    requires 1 <= page <= MaxPages + 1
    requires page < Run(site, n, page, s).pages
    ensures page <= MaxPages && site(page).Content? && site(page).containers != []
    ensures var f := Fresh(s.seen, site(page).containers);
            && f != []
            && |s.books| + |f| < n
            && ScanPage(s, site(page).containers, n) == Session(s.books + f, s.seen + Titles(f))
            && Run(site, n, page, s) == Run(site, n, page + 1, Session(s.books + f, s.seen + Titles(f)))
  {
    RunPages(site, n, page, s);
    assert |s.books| < n && page <= MaxPages;
    assert site(page).Content? && site(page).containers != [];
    var cs := site(page).containers;
    var next := ScanPage(s, cs, n);
    assert |next.books| != |s.books|;
    RunPages(site, n, page + 1, next);
    assert |next.books| < n;
    ScanPageTakesFresh(s, cs, n);
    var f := Fresh(s.seen, cs);
    assert Take(f, n - |s.books|) == f;
  }

  /** Every page a run requested before its last one was fetched, had
      containers, added at least one record, and left the run short of n. */
  lemma {:induction false} RunPagesBeforeLast(site: Site, n: int, page: int, s: Session, p: int)
    requires 1 <= page <= MaxPages + 1
    requires page <= p < Run(site, n, page, s).pages
    ensures site(p).Content? && site(p).containers != []
    ensures |Fresh(s.seen, PagesItems(site, page, p - 1))| < |Fresh(s.seen, PagesItems(site, page, p))|
    ensures |s.books| + |Fresh(s.seen, PagesItems(site, page, p))| < n
    decreases MaxPages + 1 - page
  {
    RunGoesOn(site, n, page, s);
    var f := Fresh(s.seen, site(page).containers);
    if p == page {
      FirstPageFresh(site, s.seen, page);
    } else {
      RunPagesBeforeLast(site, n, page + 1, Session(s.books + f, s.seen + Titles(f)), p);
      FreshCountsShift(site, s.seen, page, p);
    }
  }

  /** Over the pages from `page` to itself, Fresh sees just that page. */
  lemma FirstPageFresh(site: Site, seen: set<string>, page: int)
    ensures Fresh(seen, PagesItems(site, page, page - 1)) == []
    ensures Fresh(seen, PagesItems(site, page, page)) == Fresh(seen, PageItems(site(page)))
  {
    assert PagesItems(site, page, page - 1) == [];
    PagesFreshSplit(site, seen, page, page);
    assert PagesItems(site, page + 1, page) == [];
  }

  /** The fresh counts over pages `page`..q and `page`..q-1 both exceed the
      counts from the next page on by what the first page yields. */
  lemma FreshCountsShift(site: Site, seen: set<string>, page: int, q: int)
    requires page < q
    ensures var f := Fresh(seen, PageItems(site(page)));
            && |Fresh(seen, PagesItems(site, page, q))|
               == |f| + |Fresh(seen + Titles(f), PagesItems(site, page + 1, q))|
            && |Fresh(seen, PagesItems(site, page, q - 1))|
               == |f| + |Fresh(seen + Titles(f), PagesItems(site, page + 1, q - 1))|
  {
    PagesFreshSplit(site, seen, page, q);
    PagesFreshSplit(site, seen, page, q - 1);
  }

  /** What the last requested page was, for each stop reason, as an
      if-and-only-if: the run stopped on a failed request exactly when that
      page failed, on an empty page exactly when it had no containers, for
      want of new records exactly when it had containers but nothing fresh;
      when it stopped at the target or the page bound, that page added
      records. Fresh counts from `seen` over the pages from `page` on. */
  predicate LastPageExplains(site: Site, seen: set<string>, page: int, o: Outcome)
  {
    var before := Fresh(seen, PagesItems(site, page, o.pages - 1));
    var after := Fresh(seen, PagesItems(site, page, o.pages));
    && (o.stop == RequestFailed <==> site(o.pages) == FetchFailed)
    && (o.stop == NoContainers <==> site(o.pages) == Content([]))
    && (o.stop == NoNewRecords <==>
          site(o.pages).Content? && site(o.pages).containers != [] && |before| == |after|)
    && (o.stop == TargetReached || o.stop == PageBound ==>
          site(o.pages).Content? && site(o.pages).containers != [] && |before| < |after|)
  }

  /** The last requested page explains why a run stopped. */
  lemma {:induction false} RunLastPage(site: Site, n: int, page: int, s: Session)
    requires 1 <= page <= MaxPages + 1
    requires page <= Run(site, n, page, s).pages
    ensures LastPageExplains(site, s.seen, page, Run(site, n, page, s))
    decreases MaxPages + 1 - page
  {
    var o := Run(site, n, page, s);
    RunPages(site, n, page, s);
    if o.pages == page {
      RunStopsOnPage(site, n, page, s);
    } else {
      RunGoesOn(site, n, page, s);
      var f := Fresh(s.seen, site(page).containers);
      var next := Session(s.books + f, s.seen + Titles(f));
      RunLastPage(site, n, page + 1, next);
      LastPageExplainsShift(site, s.seen, page, o, next.seen);
    }
  }

  /** An earlier page that yielded fresh records f adds |f| to both counts
      LastPageExplains compares, so the explanation carries over. */
  lemma LastPageExplainsShift(site: Site, seen: set<string>, page: int, o: Outcome, seen': set<string>)
    requires page < o.pages
    requires seen' == seen + Titles(Fresh(seen, PageItems(site(page))))
    requires LastPageExplains(site, seen', page + 1, o)
    ensures LastPageExplains(site, seen, page, o)
  {
    FreshCountsShift(site, seen, page, o.pages);
  }

  /** RunLastPage for a run that stops on the first page it requests. */
  lemma RunStopsOnPage(site: Site, n: int, page: int, s: Session)
    requires 1 <= page <= MaxPages + 1
    requires Run(site, n, page, s).pages == page
    ensures var o := Run(site, n, page, s);
            var after := Fresh(s.seen, PageItems(site(page)));
            && (o.stop == RequestFailed <==> site(page) == FetchFailed)
            && (o.stop == NoContainers <==> site(page) == Content([]))
            && (o.stop == NoNewRecords <==>
                  site(page).Content? && site(page).containers != [] && after == [])
            && (o.stop == TargetReached || o.stop == PageBound ==>
                  site(page).Content? && site(page).containers != [] && after != [])
            && Fresh(s.seen, PagesItems(site, page, page - 1)) == []
            && Fresh(s.seen, PagesItems(site, page, page)) == after
  {
    RunPages(site, n, page, s);
    assert |s.books| < n && page <= MaxPages;
    assert PagesItems(site, page, page - 1) == [];
    PagesFreshSplit(site, s.seen, page, page);
    assert PagesItems(site, page + 1, page) == [];
    if site(page).Content? && site(page).containers != [] {
      var cs := site(page).containers;
      var next := ScanPage(s, cs, n);
      ScanPageTakesFresh(s, cs, n);
      if |next.books| != |s.books| {
        RunPages(site, n, page + 1, next);
      }
    }
  }

  /** Once a page's records reach n, the containers after that point are
      never examined: appending more containers to the page changes nothing. */
  lemma {:induction false} ScanPageStopsAtTarget(s: Session, cs: seq<Container>, more: seq<Container>, n: int)
    requires |s.books| < n <= |ScanPage(s, cs, n).books|
    ensures ScanPage(s, cs + more, n) == ScanPage(s, cs, n)
    decreases |cs|
  {
    assert cs != [];
    assert (cs + more)[0] == cs[0];
    assert (cs + more)[1..] == cs[1..] + more;
    var next := Step(s, cs[0]);
    if !(|next.books| > |s.books| && |next.books| >= n) {
      assert |next.books| == |s.books| || |next.books| == |s.books| + 1;
      ScanPageStopsAtTarget(next, cs[1..], more, n);
    }
  }

  /** A run reads the site only for the pages it requests: two sites that
      agree on those pages give the same outcome. */
  lemma {:induction false} RunReadsRequestedPages(site: Site, other: Site, n: int, page: int, s: Session)
    requires 1 <= page <= MaxPages + 1
    requires forall p :: page <= p <= Run(site, n, page, s).pages ==> site(p) == other(p)
    ensures Run(other, n, page, s) == Run(site, n, page, s)
    decreases MaxPages + 1 - page
  {
    RunPages(site, n, page, s);
    if |s.books| < n && page <= MaxPages {
      assert site(page) == other(page);
      if site(page).Content? && site(page).containers != [] {
        var next := ScanPage(s, site(page).containers, n);
        if |next.books| != |s.books| {
          RunReadsRequestedPages(site, other, n, page + 1, next);
        }
      }
    }
  }

  // ---------------------------------------------------------------------
  // Properties of a whole session

  /** What a session accepts: the first n records of Fresh over the
      containers of the requested pages, in page order and then container
      order; `seen_titles` holds exactly the accepted titles. */
  lemma HarvestTakesFresh(site: Site, n: int)
    ensures var o := Harvest(site, n);
            && o.books == Take(Fresh({}, PagesItems(site, 1, o.pages)), n)
            && o.seen == Titles(o.books)
  {
    var o := Harvest(site, n);
    assert o == Run(site, n, 1, Session([], {}));
    var k := Take(Fresh({}, PagesItems(site, 1, o.pages)), n);
    RunTakesFresh(site, n, 1, Session([], {}));
    assert [] + k == k;
    assert {} + Titles(k) == Titles(k);
  }

  /** Every accepted record has a valid title and comes from a container of
      a requested page; no two share a title, so a rejected short title never
      blocked a later block; at most n records are accepted. */
  lemma HarvestAccepts(site: Site, n: int)
    ensures var o := Harvest(site, n);
            && DistinctTitles(o.books)
            && o.seen == Titles(o.books)
            && (forall i :: 0 <= i < |o.books| ==> |o.books[i].title| >= MinTitleLength)
            && (forall b :: b in o.books ==> exists c :: c in PagesItems(site, 1, o.pages) && Candidate(c) == Some(b))
            && (n <= 0 ==> o.books == [])
            && (n > 0 ==> |o.books| <= n)
  {
    var o := Harvest(site, n);
    var items := PagesItems(site, 1, o.pages);
    var f := Fresh({}, items);
    HarvestTakesFresh(site, n);
    FreshDistinct({}, items);
    FreshFromCandidates({}, items);
    PrefixKeepsDistinct(o.books, f);
    forall i | 0 <= i < |o.books| ensures |o.books[i].title| >= MinTitleLength {
      assert o.books[i] == f[i];
      FreshTitleLength({}, items, i);
    }
    forall b | b in o.books ensures exists c :: c in items && Candidate(c) == Some(b) {
      var i :| 0 <= i < |o.books| && o.books[i] == b;
      assert f[i] == b;
      assert b in f;
    }
  }

  /** How a session ends: at most MaxPages requests, at least one whenever
      records are wanted; the target is reached exactly when the records
      number n; the stop reason names what the last page was, and every
      page before it was fetched, had containers, added records and left
      the session short of n. Fresh over pages 1..p counts the records an
      unbounded session would hold after page p. */
  lemma HarvestStops(site: Site, n: int)
    ensures var o := Harvest(site, n);
            && 0 <= o.pages <= MaxPages
            && (n <= 0 <==> o.pages == 0)
            && (o.stop == TargetReached <==> |o.books| >= n)
            && (o.stop == PageBound ==> o.pages == MaxPages && |o.books| < n)
            && (o.stop == RequestFailed ==> site(o.pages) == FetchFailed)
            && (o.stop == NoContainers ==> site(o.pages) == Content([]))
            && (o.stop == NoNewRecords ==>
                  && site(o.pages).Content? && site(o.pages).containers != []
                  && Fresh(o.seen, site(o.pages).containers) == [])
            && (forall p :: 1 <= p < o.pages ==>
                  && site(p).Content? && site(p).containers != []
                  && |Fresh({}, PagesItems(site, 1, p - 1))| < |Fresh({}, PagesItems(site, 1, p))| < n)
            && (1 <= o.pages ==> LastPageExplains(site, {}, 1, o))
  {
    var o := Harvest(site, n);
    var s0 := Session([], {});
    assert o == Run(site, n, 1, s0);
    RunStops(site, n, 1, s0);
    RunPages(site, n, 1, s0);
    forall p | 1 <= p < o.pages
      ensures site(p).Content? && site(p).containers != []
      ensures |Fresh({}, PagesItems(site, 1, p - 1))| < |Fresh({}, PagesItems(site, 1, p))| < n
    {
      RunPagesBeforeLast(site, n, 1, s0, p);
    }
    if 1 <= o.pages {
      RunLastPage(site, n, 1, s0);
    }
  }

  /** A session never looks at a page after the last one it requested. */
  lemma HarvestReadsRequestedPages(site: Site, other: Site, n: int)
    requires forall p :: 1 <= p <= Harvest(site, n).pages ==> site(p) == other(p)
    ensures Harvest(other, n) == Harvest(site, n)
  {
    RunReadsRequestedPages(site, other, n, 1, Session([], {}));
  }

  // ---------------------------------------------------------------------
  // The loop as the source runs it

  /** The `for` loop over one page's containers: a container whose parsing
      raises is skipped, a title already seen or shorter than three
      characters is skipped, and the loop ends as soon as the records reach
      numBooks. Returns the new records and titles and how many records the
      page added. */
  method ScanContainers(numBooks: int, containers: seq<Container>, books0: seq<Book>, seen0: set<string>)
    returns (books: seq<Book>, seenTitles: set<string>, foundOnPage: int)
    requires |books0| < numBooks
    ensures Session(books, seenTitles) == ScanPage(Session(books0, seen0), containers, numBooks)
    ensures foundOnPage == |books| - |books0|
  {
    books, seenTitles := books0, seen0;
    foundOnPage := 0;
    for i := 0 to |containers|
      invariant foundOnPage == |books| - |books0|
      invariant |books| < numBooks
      invariant ScanPage(Session(books, seenTitles), containers[i..], numBooks)
             == ScanPage(Session(books0, seen0), containers, numBooks)
    {
      ghost var current := Session(books, seenTitles);
      assert containers[i..][0] == containers[i] && containers[i..][1..] == containers[i + 1..];
      var container := containers[i];
      if container.malformed {
        continue;
      }
      var titleElem := TitleOf(container);
      if titleElem.Some? {
        var bookTitle := titleElem.value;
        if bookTitle in seenTitles || |bookTitle| < MinTitleLength {
          continue;
        }
        seenTitles := seenTitles + {bookTitle};
        books := books + [MakeBook(bookTitle, container)];
        foundOnPage := foundOnPage + 1;
        assert Session(books, seenTitles) == Step(current, container);
        if |books| >= numBooks {
          return;
        }
      }
    }
  }

  /** The `while` loop of `get_amazon_data_books`: returns the accepted
      records, why the loop ended, and the page numbers requested, in the
      order they were requested. `broke` records that the loop was left by
      one of the source's `break`s rather than by its condition. */
  method RunSession(numBooks: int, site: Site) returns (books: seq<Book>, stop: Stop, requested: seq<int>)
    ensures var o := Harvest(site, numBooks);
            books == o.books && stop == o.stop && |requested| == o.pages
    ensures forall k :: 0 <= k < |requested| ==> requested[k] == k + 1
    ensures |requested| <= MaxPages
  {
    books := [];
    var seenTitles: set<string> := {};
    var page := 1;
    requested := [];
    ghost var o := Harvest(site, numBooks);
    var broke := false;
    while |books| < numBooks && page <= MaxPages
      invariant 1 <= page <= MaxPages + 1
      invariant |requested| == page - 1
      invariant forall k :: 0 <= k < |requested| ==> requested[k] == k + 1
      invariant Run(site, numBooks, page, Session(books, seenTitles)) == o
      invariant !broke
      decreases MaxPages + 1 - page
    {
      requested := requested + [page];
      var response := site(page);
      if response.FetchFailed? {
        stop, broke := RequestFailed, true;
        break;
      }
      var containers := response.containers;
      if containers == [] {
        stop, broke := NoContainers, true;
        break;
      }
      var foundOnPage;
      books, seenTitles, foundOnPage := ScanContainers(numBooks, containers, books, seenTitles);
      if foundOnPage == 0 {
        stop, broke := NoNewRecords, true;
        break;
      }
      page := page + 1;
    }
    if !broke {
      stop := if |books| >= numBooks then TargetReached else PageBound;
    }
  }

  /** The scrape failed: not a single record was accepted. */
  datatype HarvestError = NoBooksScraped

  /** `get_amazon_data_books` up to the hand-off: the session, the error when
      nothing was accepted, and the title de-duplication, which keeps every
      record because the session already admits each title once. */
  method GetAmazonDataBooks(numBooks: int, site: Site) returns (r: Result<seq<Book>, HarvestError>)
    ensures r.Failure? <==> Harvest(site, numBooks).books == []
    ensures r.Success? ==> r.value == Harvest(site, numBooks).books
    ensures r.Success? ==> 0 < |r.value| <= numBooks && DistinctTitles(r.value)
  {
    var books, stop, requested := RunSession(numBooks, site);
    if books == [] {
      return Failure(NoBooksScraped);
    }
    HarvestAccepts(site, numBooks);
    DropDuplicatesNoOp(books);
    var df := DropDuplicates(books);
    r := Success(df);
  }
}
