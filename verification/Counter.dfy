/** `collections.Counter(words).most_common(n)`: tallies the words in
    first-seen order, then returns the `n` entries with the highest counts,
    highest first, keeping first-seen order among equal counts (the library
    documents `most_common` as a stable sort by count). */
module Counter {
  import opened Seqs

  /** One `(word, count)` pair of the result. */
  datatype WordCount = WordCount(word: string, count: nat)

  /** Index of the first occurrence of `w` in `ws`, or `|ws|` when absent. */
  function FirstIndex(ws: seq<string>, w: string): (k: nat)
    ensures k <= |ws|
    ensures k < |ws| <==> w in ws
    ensures k < |ws| ==> ws[k] == w
    ensures w !in ws[..k]
    decreases |ws|
  {
    if ws == [] then 0
    else if ws[0] == w then 0
    else
      var k := 1 + FirstIndex(ws[1..], w);
      assert ws[..k] == [ws[0]] + ws[1..][..k - 1];
      k
  }

  /** The first occurrence of a word is not moved by appending to the list. */
  lemma FirstIndexAppend(ws: seq<string>, x: string, w: string)
    ensures FirstIndex(ws + [x], w) == if w in ws then FirstIndex(ws, w) else if w == x then |ws| else |ws| + 1
  {
    var k := FirstIndex(ws, w);
    if w in ws {
      assert (ws + [x])[k] == w && (ws + [x])[..k] == ws[..k];
    } else if w == x {
      assert (ws + [x])[|ws|] == w && (ws + [x])[..|ws|] == ws;
    } else {
      assert w !in ws + [x];
    }
  }

  /** The distinct words of `ws`, in the order they are first seen
      (the key order of the `Counter` dictionary). */
  function Distinct(ws: seq<string>): (d: seq<string>)
    ensures NoDuplicates(d)
    ensures forall w :: w in d <==> w in ws
    decreases |ws|
  {
    if ws == [] then []
    else
      var init := ws[..|ws| - 1];
      assert ws == init + [ws[|ws| - 1]];
      var d := Distinct(init);
      if ws[|ws| - 1] in d then d else d + [ws[|ws| - 1]]
  }

  /** The distinct words appear in order of first occurrence. */
  lemma {:induction false} DistinctInFirstSeenOrder(ws: seq<string>)
    ensures forall i, j :: 0 <= i < j < |Distinct(ws)| ==>
              FirstIndex(ws, Distinct(ws)[i]) < FirstIndex(ws, Distinct(ws)[j])
    decreases |ws|
  {
    if ws != [] {
      var init := ws[..|ws| - 1];
      var x := ws[|ws| - 1];
      assert ws == init + [x];
      DistinctInFirstSeenOrder(init);
      var d := Distinct(init);
      forall w | w in d ensures FirstIndex(ws, w) == FirstIndex(init, w) < |init| {
        FirstIndexAppend(init, x, w);
      }
      if x !in d {
        FirstIndexAppend(init, x, x);
      }
    }
  }

  /** The items of `Counter(ws)`: every distinct word with its number of occurrences. */
  function Tally(ws: seq<string>): seq<WordCount>
  {
    var d := Distinct(ws);
    seq(|d|, i requires 0 <= i < |d| => WordCount(d[i], multiset(ws)[d[i]]))
  }

  /** Inserts `x` after every entry whose count is at least `x.count`. */
  function InsertByCount(sorted: seq<WordCount>, x: WordCount): seq<WordCount>
    decreases |sorted|
  {
    if sorted == [] then [x]
    else if sorted[0].count >= x.count then [sorted[0]] + InsertByCount(sorted[1..], x)
    else [x] + sorted
  }

  /** Stable sort by descending count (insertion sort). */
  function SortByCount(items: seq<WordCount>): seq<WordCount>
    decreases |items|
  {
    if items == [] then []
    else InsertByCount(SortByCount(items[..|items| - 1]), items[|items| - 1])
  }

  /** `Counter(ws).most_common(n)`; a non-positive `n` gives the empty list. */
  function MostCommon(ws: seq<string>, n: int): (r: seq<WordCount>)
    ensures n <= 0 ==> r == []
    ensures forall e :: e in r ==> e.word in ws && e.count == multiset(ws)[e.word]
  {
    var sorted := SortByCount(Tally(ws));
    SortedTally(ws);
    if n <= 0 then []
    else if n < |sorted| then
      assert forall e :: e in sorted[..n] ==> e in sorted;
      sorted[..n]
    else sorted
  }

  /** `a` is listed before `b`: a higher count, or the same count and seen earlier in `ws`. */
  predicate Precedes(a: WordCount, b: WordCount, ws: seq<string>)
  {
    a.count > b.count || (a.count == b.count && FirstIndex(ws, a.word) < FirstIndex(ws, b.word))
  }

  predicate Ranked(s: seq<WordCount>, ws: seq<string>)
  {
    forall i, j :: 0 <= i < j < |s| ==> Precedes(s[i], s[j], ws)
  }

  /** Putting in front an entry that precedes all others keeps a list ranked. */
  lemma RankedCons(a: WordCount, t: seq<WordCount>, ws: seq<string>)
    requires Ranked(t, ws)
    requires forall e :: e in t ==> Precedes(a, e, ws)
    ensures Ranked([a] + t, ws)
  {
    var res := [a] + t;
    forall i, j | 0 <= i < j < |res| ensures Precedes(res[i], res[j], ws) {
      if i == 0 {
        assert res[j] == t[j - 1];
      } else {
        assert res[i] == t[i - 1] && res[j] == t[j - 1];
      }
    }
  }

  lemma {:induction false} InsertByCountPermutes(s: seq<WordCount>, x: WordCount)
    ensures multiset(InsertByCount(s, x)) == multiset(s) + multiset{x}
    decreases |s|
  {
    if s != [] && s[0].count >= x.count {
      assert s == [s[0]] + s[1..];
      InsertByCountPermutes(s[1..], x);
    }
  }

  lemma {:induction false} InsertByCountRanked(s: seq<WordCount>, x: WordCount, ws: seq<string>)
    requires Ranked(s, ws)
    requires forall y :: y in s ==> FirstIndex(ws, y.word) < FirstIndex(ws, x.word)
    ensures Ranked(InsertByCount(s, x), ws)
    decreases |s|
  {
    if s == [] {
    } else if s[0].count >= x.count {
      var t := s[1..];
      assert Ranked(t, ws) by {
        forall i, j | 0 <= i < j < |t| ensures Precedes(t[i], t[j], ws) {
          assert t[i] == s[i + 1] && t[j] == s[j + 1];
        }
      }
      InsertByCountRanked(t, x, ws);
      var r := InsertByCount(t, x);
      InsertByCountPermutes(t, x);
      forall e | e in r ensures Precedes(s[0], e, ws) {
        assert e in multiset(r);
        if e != x {
          assert e in multiset(t);
          var k :| 0 <= k < |t| && t[k] == e;
          assert s[k + 1] == e;
        }
      }
      RankedCons(s[0], r, ws);
    } else {
      forall e | e in s ensures Precedes(x, e, ws) {
        var k :| 0 <= k < |s| && s[k] == e;
        if k > 0 {
          assert Precedes(s[0], s[k], ws);
        }
      }
      RankedCons(x, s, ws);
    }
  }

  /** Sorting keeps every entry and adds none. */
  lemma {:induction false} SortByCountPermutes(items: seq<WordCount>)
    ensures multiset(SortByCount(items)) == multiset(items)
    decreases |items|
  {
    if items != [] {
      var init := items[..|items| - 1];
      SortByCountPermutes(init);
      InsertByCountPermutes(SortByCount(init), items[|items| - 1]);
      assert items == init + [items[|items| - 1]];
    }
  }

  /** In a list in first-seen order, every earlier entry was seen before the last one. */
  lemma EarlierSeenFirst(init: seq<WordCount>, x: WordCount, ws: seq<string>)
    requires forall i, j :: 0 <= i < j < |init + [x]| ==>
               FirstIndex(ws, (init + [x])[i].word) < FirstIndex(ws, (init + [x])[j].word)
    ensures forall y :: y in multiset(init) ==> FirstIndex(ws, y.word) < FirstIndex(ws, x.word)
  {
    forall y | y in multiset(init) ensures FirstIndex(ws, y.word) < FirstIndex(ws, x.word) {
      var k :| 0 <= k < |init| && init[k] == y;
      assert (init + [x])[k] == y && (init + [x])[|init|] == x;
    }
  }

  /** Sorting entries listed in first-seen order ranks them by count, then first-seen order. */
  lemma {:induction false} SortByCountRanked(items: seq<WordCount>, ws: seq<string>)
    requires forall i, j :: 0 <= i < j < |items| ==> FirstIndex(ws, items[i].word) < FirstIndex(ws, items[j].word)
    ensures Ranked(SortByCount(items), ws)
    decreases |items|
  {
    if items != [] {
      var init := items[..|items| - 1];
      var x := items[|items| - 1];
      assert items == init + [x];
      SortByCountRanked(init, ws);
      EarlierSeenFirst(init, x, ws);
      SortByCountPermutes(init);
      var sorted := SortByCount(init);
      assert forall y :: y in sorted ==> y in multiset(init);
      InsertByCountRanked(sorted, x, ws);
    }
  }

  /** The tally has one entry per distinct word, each with its true count. */
  lemma TallyMembers(ws: seq<string>)
    ensures |Tally(ws)| == |set w | w in ws|
    ensures forall e :: e in Tally(ws) <==> e.word in ws && e.count == multiset(ws)[e.word]
  {
    var d := Distinct(ws);
    var items := Tally(ws);
    NoDuplicatesCardinality(d);
    assert (set w | w in d) == (set w | w in ws);
    forall e: WordCount | e.word in ws && e.count == multiset(ws)[e.word] ensures e in items {
      var k :| 0 <= k < |d| && d[k] == e.word;
      assert items[k] == e;
    }
  }

  /** The sorted tally: ranked, one entry per distinct word, each with its true count. */
  lemma SortedTally(ws: seq<string>)
    ensures Ranked(SortByCount(Tally(ws)), ws)
    ensures |SortByCount(Tally(ws))| == |set w | w in ws|
    ensures forall e :: e in SortByCount(Tally(ws)) <==> e.word in ws && e.count == multiset(ws)[e.word]
  {
    var items := Tally(ws);
    DistinctInFirstSeenOrder(ws);
    SortByCountRanked(items, ws);
    SortByCountPermutes(items);
    TallyMembers(ws);
    var sorted := SortByCount(items);
    assert |sorted| == |items| by {
      assert |multiset(sorted)| == |multiset(items)|;
    }
    forall e: WordCount ensures e in sorted <==> e in items {
      assert e in sorted <==> e in multiset(sorted);
      assert e in items <==> e in multiset(items);
    }
  }

  /** `most_common(n)` lists distinct words with their true counts, highest count
      first and, among equal counts, in first-seen order. */
  lemma MostCommonRanked(ws: seq<string>, n: int)
    ensures forall i :: 0 <= i < |MostCommon(ws, n)| ==>
              MostCommon(ws, n)[i].word in ws && MostCommon(ws, n)[i].count == multiset(ws)[MostCommon(ws, n)[i].word]
    ensures forall i, j :: 0 <= i < j < |MostCommon(ws, n)| ==> MostCommon(ws, n)[i].word != MostCommon(ws, n)[j].word
    ensures forall i, j :: 0 <= i < j < |MostCommon(ws, n)| ==> MostCommon(ws, n)[i].count >= MostCommon(ws, n)[j].count
    ensures forall i, j :: 0 <= i < j < |MostCommon(ws, n)| && MostCommon(ws, n)[i].count == MostCommon(ws, n)[j].count ==>
              FirstIndex(ws, MostCommon(ws, n)[i].word) < FirstIndex(ws, MostCommon(ws, n)[j].word)
  {
    SortedTally(ws);
    var sorted := SortByCount(Tally(ws));
    var r := MostCommon(ws, n);
    assert forall i :: 0 <= i < |r| ==> r[i] == sorted[i];
    forall i, j | 0 <= i < j < |r| ensures Precedes(r[i], r[j], ws) && r[i].word != r[j].word {
      assert r[i] in sorted && r[j] in sorted;
    }
  }

  /** `most_common(n)` has `n` entries, or one per distinct word when there are fewer. */
  lemma MostCommonLength(ws: seq<string>, n: int)
    ensures |MostCommon(ws, n)| == if n <= 0 then 0 else if n < |set w | w in ws| then n else |set w | w in ws|
  {
    SortedTally(ws);
  }

  /** Every word left out of `most_common(n)` ranks after every word kept:
      its count is no higher, and on a tie it was seen later. */
  lemma MostCommonIsTop(ws: seq<string>, n: int, w: string)
    requires w in ws
    requires forall i :: 0 <= i < |MostCommon(ws, n)| ==> MostCommon(ws, n)[i].word != w
    ensures forall i :: 0 <= i < |MostCommon(ws, n)| ==>
              Precedes(MostCommon(ws, n)[i], WordCount(w, multiset(ws)[w]), ws)
  {
    SortedTally(ws);
    var sorted := SortByCount(Tally(ws));
    var r := MostCommon(ws, n);
    MostCommonIsPrefix(ws, n);
    var e := WordCount(w, multiset(ws)[w]);
    assert e in sorted;
    var m :| 0 <= m < |sorted| && sorted[m] == e;
    assert |r| <= m;
    forall i | 0 <= i < |r| ensures Precedes(r[i], e, ws) {
      assert r[i] == sorted[i];
    }
  }

  lemma {:induction false} MostCommonIsPrefix(ws: seq<string>, n: int)
    ensures |MostCommon(ws, n)| <= |SortByCount(Tally(ws))|
    ensures MostCommon(ws, n) == SortByCount(Tally(ws))[..|MostCommon(ws, n)|]
  {
  }
}
