/** The harvested book record and the title-level notions shared by the
    harvest session and the database writer. */
module Books {

  /** One scraped record: the dict built in `get_amazon_data_books`.
      Price and rating are kept as the raw display strings. */
  datatype Book = Book(title: string, author: string, price: string, rating: string)

  /** The set of titles occurring in a sequence of records. */
  function Titles(bs: seq<Book>): set<string>
  {
    set i | 0 <= i < |bs| :: bs[i].title
  }

  /** No two records share a title. */
  predicate DistinctTitles(bs: seq<Book>)
  {
    forall i, j :: 0 <= i < j < |bs| ==> bs[i].title != bs[j].title
  }

  lemma TitlesAppend(bs: seq<Book>, b: Book)
    ensures Titles(bs + [b]) == Titles(bs) + {b.title}
  {
    var ext := bs + [b];
    assert ext[|bs|].title == b.title;
    forall t | t in Titles(bs) ensures t in Titles(ext) {
      var i :| 0 <= i < |bs| && bs[i].title == t;
      assert ext[i].title == t;
    }
  }

  lemma TitlesPrepend(b: Book, bs: seq<Book>)
    ensures Titles([b] + bs) == {b.title} + Titles(bs)
  {
    var ext := [b] + bs;
    assert ext[0].title == b.title;
    forall t | t in Titles(bs) ensures t in Titles(ext) {
      var i :| 0 <= i < |bs| && bs[i].title == t;
      assert ext[i + 1].title == t;
    }
    forall t | t in Titles(ext) ensures t in {b.title} + Titles(bs) {
      var i :| 0 <= i < |ext| && ext[i].title == t;
      if i > 0 {
        assert bs[i - 1].title == t;
      }
    }
  }

  /** Position of the first record titled t; |bs| when there is none. */
  function FirstIndex(bs: seq<Book>, t: string): (i: nat)
    ensures i <= |bs|
    ensures i < |bs| <==> t in Titles(bs)
    ensures i < |bs| ==> bs[i].title == t
    ensures forall k :: 0 <= k < i ==> bs[k].title != t
  {
    if bs == [] then 0
    else if bs[0].title == t then 0
    else
      TitlesPrepend(bs[0], bs[1..]);
      assert bs == [bs[0]] + bs[1..];
      1 + FirstIndex(bs[1..], t)
  }

  /** Appending a record leaves the first position of every earlier title
      alone, and makes a new title first at the end. */
  lemma FirstIndexAppend(bs: seq<Book>, b: Book, t: string)
    ensures FirstIndex(bs + [b], t) ==
            if t in Titles(bs) then FirstIndex(bs, t)
            else if t == b.title then |bs|
            else |bs| + 1
  {
    TitlesAppend(bs, b);
    var ext := bs + [b];
    var i := FirstIndex(bs, t);
    var e := FirstIndex(ext, t);
    if i < |bs| {
      assert ext[i].title == t;
    } else if t == b.title {
      assert ext[|bs|].title == t;
    }
  }

  /** Every record of r is the first record of bs with its title, and r
      lists them in the order in which they first occur in bs. */
  predicate KeepsFirsts(r: seq<Book>, bs: seq<Book>)
  {
    (forall i :: 0 <= i < |r| ==> FirstIndex(bs, r[i].title) < |bs| && r[i] == bs[FirstIndex(bs, r[i].title)]) &&
    (forall i, j :: 0 <= i < j < |r| ==> FirstIndex(bs, r[i].title) < FirstIndex(bs, r[j].title))
  }

  /** `df.drop_duplicates(subset="title")` with pandas' default `keep="first"`:
      a record is dropped when an earlier record has the same title. */
  function DropDuplicates(bs: seq<Book>): (r: seq<Book>)
    ensures DistinctTitles(r)
    ensures Titles(r) == Titles(bs)
    ensures KeepsFirsts(r, bs)
    ensures |r| <= |bs|
    decreases |bs|
  {
    if bs == [] then []
    else
      var init := bs[..|bs| - 1];
      var last := bs[|bs| - 1];
      var kept := DropDuplicates(init);
      assert bs == init + [last];
      TitlesAppend(init, last);
      KeepsFirstsAppend(kept, init, last);
      if last.title in Titles(init) then kept
      else
        TitlesAppend(kept, last);
        kept + [last]
  }

  /** The inductive step of DropDuplicates: a repeated title leaves the kept
      records as they are, a new one is kept at the end. */
  lemma KeepsFirstsAppend(kept: seq<Book>, init: seq<Book>, last: Book)
    requires KeepsFirsts(kept, init) && Titles(kept) == Titles(init)
    ensures last.title in Titles(init) ==> KeepsFirsts(kept, init + [last])
    ensures last.title !in Titles(init) ==> KeepsFirsts(kept + [last], init + [last])
  {
    var bs := init + [last];
    forall i | 0 <= i < |kept|
      ensures FirstIndex(bs, kept[i].title) == FirstIndex(init, kept[i].title) < |init|
    {
      assert kept[i].title in Titles(kept);
      FirstIndexAppend(init, last, kept[i].title);
    }
    if last.title !in Titles(init) {
      FirstIndexAppend(init, last, last.title);
      var r := kept + [last];
      forall i | 0 <= i < |r|
        ensures FirstIndex(bs, r[i].title) < |bs| && r[i] == bs[FirstIndex(bs, r[i].title)]
      {
        if i < |kept| {
          assert r[i] == kept[i];
        }
      }
    }
  }

  /** Once titles are already distinct, dropping duplicates changes nothing. */
  lemma {:induction false} DropDuplicatesNoOp(bs: seq<Book>)
    requires DistinctTitles(bs)
    ensures DropDuplicates(bs) == bs
    decreases |bs|
  {
    if bs != [] {
      var init := bs[..|bs| - 1];
      var last := bs[|bs| - 1];
      assert bs == init + [last];
      assert DistinctTitles(init);
      DropDuplicatesNoOp(init);
      forall i | 0 <= i < |init| ensures init[i].title != last.title {
        assert init[i] == bs[i];
      }
      assert last.title !in Titles(init);
      assert DropDuplicates(bs) == DropDuplicates(init) + [last];
    }
  }

  /** The first k records of s (all of s when it is shorter, none when k <= 0). */
  function Take<T>(s: seq<T>, k: int): (r: seq<T>)
    ensures r <= s
    ensures k <= 0 ==> r == []
    ensures 0 <= k ==> |r| <= k
    ensures k >= |s| ==> r == s
  {
    if k <= 0 then [] else if k < |s| then s[..k] else s
  }

  lemma PrefixKeepsDistinct(r: seq<Book>, s: seq<Book>)
    requires r <= s && DistinctTitles(s)
    ensures DistinctTitles(r)
    ensures Titles(r) <= Titles(s)
  {
  }
}
