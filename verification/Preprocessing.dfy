/** The shared text helpers of the gambling-site classifier
    (assignment2/helpers/preprocessing.py): visible-text selection, list
    flattening, character cleaning, stopword removal and the word-frequency
    profile. */
module Preprocessing {
  import opened Seqs
  import opened PyStr
  import opened Counter

  // ---------------------------------------------------------------------
  // Visible text of a page

  /** A text node of the parsed page: its text, the tag name of its parent
      element, and whether it is an HTML comment. */
  datatype TextNode = TextNode(text: string, parentName: string, isComment: bool)

  /** Parents whose text is never shown to a reader. */
  const HiddenParents: seq<string> := ["style", "script", "head", "title", "meta", "[document]"]

  /** `tag_visible`. */
  function TagVisible(node: TextNode): (visible: bool)
    ensures !visible <==>
              node.parentName == "style" || node.parentName == "script" || node.parentName == "head"
              || node.parentName == "title" || node.parentName == "meta" || node.parentName == "[document]"
              || node.isComment
  {
    if node.parentName in HiddenParents then false
    else if node.isComment then false
    else true
  }

  /** The texts of the visible nodes, each stripped, in document order. */
  function VisibleTexts(nodes: seq<TextNode>): seq<string>
  {
    var visible := Filter(nodes, TagVisible);
    seq(|visible|, i requires 0 <= i < |visible| => Strip(visible[i].text))
  }

  /** `text_from_html` after parsing: the stripped visible texts joined by single
      spaces, so the stripped text of every visible node occurs in it. */
  function TextFromHtml(nodes: seq<TextNode>): (text: string)
    ensures forall k :: 0 <= k < |nodes| && TagVisible(nodes[k]) ==> Contains(text, Strip(nodes[k].text))
  {
    VisibleNodesListed(nodes);
    Join(VisibleTexts(nodes), ' ')
  }

  lemma {:induction false} VisibleNodesListed(nodes: seq<TextNode>)
    ensures forall k :: 0 <= k < |nodes| && TagVisible(nodes[k]) ==> Strip(nodes[k].text) in VisibleTexts(nodes)
  {
    var visible := Filter(nodes, TagVisible);
    forall k | 0 <= k < |nodes| && TagVisible(nodes[k])
      ensures Strip(nodes[k].text) in VisibleTexts(nodes)
    {
      assert nodes[k] in nodes;
      assert multiset(visible)[nodes[k]] == multiset(nodes)[nodes[k]];
      assert nodes[k] in visible;
      var i :| 0 <= i < |visible| && visible[i] == nodes[k];
      assert VisibleTexts(nodes)[i] == Strip(nodes[k].text);
    }
  }

  /** A hidden node (script, style, comment, ...) has no influence on the extracted text. */
  lemma HiddenNodeIgnored(before: seq<TextNode>, node: TextNode, after: seq<TextNode>)
    requires !TagVisible(node)
    ensures TextFromHtml(before + [node] + after) == TextFromHtml(before + after)
  {
    FilterConcat(before + [node], after, TagVisible);
    FilterConcat(before, [node], TagVisible);
    FilterConcat(before, after, TagVisible);
    assert Filter([node], TagVisible) == [] by {
      assert [node][1..] == [];
    }
    assert Filter(before + [node] + after, TagVisible) == Filter(before + after, TagVisible);
  }

  // ---------------------------------------------------------------------
  // flatten

  /** An element of a nested Python list: a leaf value or a nested list. */
  datatype Item<T> = Leaf(value: T) | Nested(items: seq<Item<T>>)

  /** The leaves of a nested list, left to right. */
  function Leaves<T>(arr: seq<Item<T>>): seq<T>
    decreases arr
  {
    if arr == [] then [] else Leaves(arr[..|arr| - 1]) + LeavesOf(arr[|arr| - 1])
  }

  function LeavesOf<T>(item: Item<T>): seq<T>
    decreases item
  {
    match item
    case Leaf(v) => [v]
    case Nested(items) => Leaves(items)
  }

  /** `flatten`: nested lists are expanded in place (recursively), leaves appended. */
  method Flatten<T>(arr: seq<Item<T>>) returns (flattened: seq<T>)
    ensures flattened == Leaves(arr)
    decreases arr
  {
    flattened := [];
    for k := 0 to |arr|
      invariant flattened == Leaves(arr[..k])
    {
      assert arr[..k + 1][..k] == arr[..k];
      match arr[k]
      case Nested(items) =>
        var inner := Flatten(items);
        flattened := flattened + inner;
      case Leaf(v) =>
        flattened := flattened + [v];
    }
    assert arr[..|arr|] == arr;
  }

  /** Flattening distributes over concatenation: leaves keep their left-to-right order. */
  lemma {:induction false} LeavesConcat<T>(a: seq<Item<T>>, b: seq<Item<T>>)
    ensures Leaves(a + b) == Leaves(a) + Leaves(b)
    decreases |b|
  {
    if b == [] {
      assert a + b == a;
    } else {
      var b' := b[..|b| - 1];
      assert (a + b)[..|a + b| - 1] == a + b';
      LeavesConcat(a, b');
    }
  }

  /** A list of plain values as a Python list with no nested lists. */
  function AsLeaves<T>(s: seq<T>): (arr: seq<Item<T>>)
    ensures |arr| == |s| && forall i :: 0 <= i < |s| ==> arr[i] == Leaf(s[i])
  {
    seq(|s|, i requires 0 <= i < |s| => Leaf(s[i]))
  }

  /** Flattening a list that holds no lists gives back its elements unchanged. */
  lemma {:induction false} FlattenFlat<T>(s: seq<T>)
    ensures Leaves(AsLeaves(s)) == s
    decreases |s|
  {
    if s != [] {
      assert AsLeaves(s)[..|s| - 1] == AsLeaves(s[..|s| - 1]);
      FlattenFlat(s[..|s| - 1]);
    }
  }

  // ---------------------------------------------------------------------
  // remove_special_chars

  predicate KeptByCleaning(c: char) { IsAlnum(c) || c == ' ' }

  /** `remove_special_chars`: keeps alphanumerics and spaces, then strips. */
  function RemoveSpecialChars(s: string): (r: string)
    ensures forall c :: c in r ==> IsAlnum(c) || c == ' '
    ensures r == [] || (r[0] != ' ' && r[|r| - 1] != ' ')
    ensures IsSubsequence(r, s)
    ensures forall c {:trigger multiset(r)[c]} :: IsAlnum(c) ==> multiset(r)[c] == multiset(s)[c]
    ensures exists i :: StrippedAt(Filter(s, KeptByCleaning), r, i)
  {
    var kept := Filter(s, KeptByCleaning);
    var r := Strip(kept);
    SubsequenceMembers(r, kept);
    SubsequenceTransitive(r, kept, s);
    AlnumKeptByCleaning(s, kept, r);
    r
  }

  /** Filtering with `KeptByCleaning` and stripping keeps every letter and digit. */
  lemma {:induction false} AlnumKeptByCleaning(s: string, kept: string, r: string)
    requires kept == Filter(s, KeptByCleaning) && r == Strip(kept)
    ensures forall c {:trigger multiset(r)[c]} :: IsAlnum(c) ==> multiset(r)[c] == multiset(s)[c]
  {
    forall c | IsAlnum(c)
      ensures multiset(r)[c] == multiset(s)[c]
    {
      FilterKeepsAlnum(s, kept, c);
      StripKeepsAlnum(kept, r, c);
    }
  }

  lemma {:induction false} FilterKeepsAlnum(s: string, kept: string, c: char)
    requires kept == Filter(s, KeptByCleaning) && IsAlnum(c)
    ensures multiset(kept)[c] == multiset(s)[c]
  {
    if c !in s {
      assert c !in kept;
    }
  }

  lemma {:induction false} StripKeepsAlnum(kept: string, r: string, c: char)
    requires r == Strip(kept) && IsAlnum(c)
    ensures multiset(r)[c] == multiset(kept)[c]
  {
    assert !IsSpace(c);
  }

  /** Cleaning twice is the same as cleaning once. */
  lemma RemoveSpecialCharsIdempotent(s: string)
    ensures RemoveSpecialChars(RemoveSpecialChars(s)) == RemoveSpecialChars(s)
  {
    var r := RemoveSpecialChars(s);
    FilterKeepsAll(r, KeptByCleaning);
    assert Filter(r, KeptByCleaning) == r;
    StripUnchanged(r);
    assert Strip(r) == r;
  }

  // ---------------------------------------------------------------------
  // get_texts_from_url

  /** The outcome of `requests.get(url, timeout=10)`: an exception, or a
      response whose body has already been parsed into text nodes. */
  datatype Fetch = RequestFailed | Response(status: int, nodes: seq<TextNode>)

  /** `get_texts_from_url` after the request: the empty string unless the
      status is 200, else the visible text lowercased and cleaned. */
  function GetTextsFromUrl(page: Fetch): (text: string)
    ensures page.RequestFailed? || page.status != 200 ==> text == ""
    ensures forall c :: c in text ==> c == ' ' || (IsAlnum(c) && !IsUpper(c))
    ensures text == [] || (text[0] != ' ' && text[|text| - 1] != ' ')
    ensures page.Response? && page.status == 200 ==>
              forall c {:trigger multiset(text)[c]} :: IsAlnum(c) ==> multiset(text)[c] == multiset(Lower(TextFromHtml(page.nodes)))[c]
    ensures page.Response? && page.status == 200 ==>
              exists i :: StrippedAt(Filter(Lower(TextFromHtml(page.nodes)), KeptByCleaning), text, i)
  {
    if page.RequestFailed? || page.status != 200 then ""
    else
      var lowered := Lower(TextFromHtml(page.nodes));
      var text := RemoveSpecialChars(lowered);
      assert exists i :: StrippedAt(Filter(lowered, KeptByCleaning), text, i);
      SubsequenceMembers(text, lowered);
      text
  }

  /** A hidden node anywhere in the page leaves the fetched text unchanged. */
  lemma {:induction false} HiddenNodeIgnoredInPage(status: int, before: seq<TextNode>, node: TextNode, after: seq<TextNode>)
    requires !TagVisible(node)
    ensures GetTextsFromUrl(Response(status, before + [node] + after)) == GetTextsFromUrl(Response(status, before + after))
  {
    HiddenNodeIgnored(before, node, after);
  }

  /** Every letter or digit of a visible node reaches the fetched text of a
      200 response, lower-cased. */
  lemma {:induction false} VisibleCharacterKept(page: Fetch, k: int, j: int)
    requires page.Response? && page.status == 200
    requires 0 <= k < |page.nodes| && TagVisible(page.nodes[k])
    requires 0 <= j < |page.nodes[k].text| && IsAlnum(page.nodes[k].text[j])
    ensures LowerChar(page.nodes[k].text[j]) in GetTextsFromUrl(page)
  {
    var c := page.nodes[k].text[j];
    var html := TextFromHtml(page.nodes);
    VisibleCharacterInHtml(page.nodes, k, j);
    LowerKeepsMember(html, c);
    assert multiset(GetTextsFromUrl(page))[LowerChar(c)] == multiset(Lower(html))[LowerChar(c)];
  }

  lemma {:induction false} VisibleCharacterInHtml(nodes: seq<TextNode>, k: int, j: int)
    requires 0 <= k < |nodes| && TagVisible(nodes[k])
    requires 0 <= j < |nodes[k].text| && IsAlnum(nodes[k].text[j])
    ensures nodes[k].text[j] in TextFromHtml(nodes)
  {
    var text := nodes[k].text;
    var c := text[j];
    assert !IsSpace(c);
    assert multiset(Strip(text))[c] == multiset(text)[c] > 0;
    ContainsMembers(TextFromHtml(nodes), Strip(text), c);
  }

  /** Extracted text is a fixed point of the normalisation: lowercasing and
      cleaning it again changes nothing. */
  lemma ExtractedTextIsNormalised(page: Fetch)
    ensures RemoveSpecialChars(Lower(GetTextsFromUrl(page))) == GetTextsFromUrl(page)
  {
    var text := GetTextsFromUrl(page);
    LowerUnchangedWithoutUpper(text);
    FilterKeepsAll(text, KeptByCleaning);
    StripUnchanged(text);
  }

  // ---------------------------------------------------------------------
  // lemmatize_word_arr and preprocess_text_documents

  /** `lemmatize_word_arr`: each word replaced by its lemma, in order. */
  method LemmatizeWordArr(arr: seq<string>, lemmatize: string -> string) returns (lemmatized: seq<string>)
    ensures |lemmatized| == |arr|
    ensures forall i :: 0 <= i < |arr| ==> lemmatized[i] == lemmatize(arr[i])
  {
    lemmatized := [];
    for i := 0 to |arr|
      invariant |lemmatized| == i
      invariant forall k :: 0 <= k < i ==> lemmatized[k] == lemmatize(arr[k])
    {
      lemmatized := lemmatized + [lemmatize(arr[i])];
    }
  }

  function Lemmas(words: seq<string>, lemmatize: string -> string): seq<string>
  {
    seq(|words|, i requires 0 <= i < |words| => lemmatize(words[i]))
  }

  /** The stopword filter `[w for w in words if not w.lower() in stopwords]`. */
  function WithoutStopwords(words: seq<string>, stopwords: set<string>): (kept: seq<string>)
    ensures IsSubsequence(kept, words)
    ensures forall w :: w in kept ==> Lower(w) !in stopwords
    ensures forall w :: w in words && Lower(w) !in stopwords ==> multiset(kept)[w] == multiset(words)[w]
  {
    Filter(words, w => Lower(w) !in stopwords)
  }

  /** `preprocess_text_documents`, with the tokenizer, the lemmatizer and the
      stopword list given: one output string per document, in order, holding
      the document's non-stopword lemmas joined by single spaces. */
  method PreprocessTextDocuments(docs: seq<string>, tokenize: string -> seq<string>,
                                 lemmatize: string -> string, stopwords: set<string>)
    returns (processed: seq<string>)
    ensures |processed| == |docs|
    ensures forall i :: 0 <= i < |docs| ==>
              processed[i] == Join(WithoutStopwords(Lemmas(tokenize(docs[i]), lemmatize), stopwords), ' ')
  {
    var tokenized := seq(|docs|, i requires 0 <= i < |docs| => tokenize(docs[i]));
    var lemmatized: seq<seq<string>> := [];
    for i := 0 to |tokenized|
      invariant |lemmatized| == i
      invariant forall k :: 0 <= k < i ==> lemmatized[k] == Lemmas(tokenize(docs[k]), lemmatize)
    {
      var words := LemmatizeWordArr(tokenized[i], lemmatize);
      assert words == Lemmas(tokenize(docs[i]), lemmatize);
      lemmatized := lemmatized + [words];
    }
    processed := [];
    for i := 0 to |lemmatized|
      invariant |processed| == i
      invariant forall k :: 0 <= k < i ==>
                  processed[k] == Join(WithoutStopwords(Lemmas(tokenize(docs[k]), lemmatize), stopwords), ' ')
    {
      var kept := WithoutStopwords(lemmatized[i], stopwords);
      processed := processed + [Join(kept, ' ')];
    }
  }

  // ---------------------------------------------------------------------
  // get_most_common_words

  /** `[s.split(delim) for s in docs]` as a nested list. */
  function SplitAll(docs: seq<string>, delim: char): seq<Item<string>>
  {
    seq(|docs|, i requires 0 <= i < |docs| => Nested(AsLeaves(Split(docs[i], delim))))
  }

  /** The flattened word list `flatten([s.split(delim) for s in docs])`. */
  function Tokens(docs: seq<string>, delim: char): seq<string>
  {
    Leaves(SplitAll(docs, delim))
  }

  /** `get_most_common_words(docs, n, delim)`. */
  function GetMostCommonWords(docs: seq<string>, n: int, delim: char): (r: seq<WordCount>)
    ensures n <= 0 ==> r == []
    ensures forall e :: e in r ==> e.count >= 1 && exists i :: 0 <= i < |docs| && e.word in Split(docs[i], delim)
  {
    var ws := Tokens(docs, delim);
    TokensComeFromDocuments(docs, delim);
    MostCommon(ws, n)
  }

  /** Every word of the flattened list is a field of one of the documents. */
  lemma {:induction false} TokensComeFromDocuments(docs: seq<string>, delim: char)
    ensures forall w :: w in Tokens(docs, delim) ==> exists i :: 0 <= i < |docs| && w in Split(docs[i], delim)
    decreases |docs|
  {
    if docs == [] {
      assert SplitAll(docs, delim) == [];
    } else {
      var init := docs[..|docs| - 1];
      var last := docs[|docs| - 1];
      assert docs == init + [last];
      TokensComeFromDocuments(init, delim);
      TokensAppend(init, last, delim);
      forall w | w in Tokens(docs, delim)
        ensures exists i :: 0 <= i < |docs| && w in Split(docs[i], delim)
      {
        if w in Tokens(init, delim) {
          var i :| 0 <= i < |init| && w in Split(init[i], delim);
          assert docs[i] == init[i];
        } else {
          assert w in Split(docs[|docs| - 1], delim);
        }
      }
    }
  }

  /** The word list of several documents is the concatenation of their fields,
      so a word's count is the sum of its counts in the documents. */
  lemma TokensAppend(docs: seq<string>, doc: string, delim: char)
    ensures Tokens(docs + [doc], delim) == Tokens(docs, delim) + Split(doc, delim)
    ensures multiset(Tokens(docs + [doc], delim)) == multiset(Tokens(docs, delim)) + multiset(Split(doc, delim))
  {
    var all := SplitAll(docs + [doc], delim);
    assert all[..|all| - 1] == SplitAll(docs, delim);
    assert all[|all| - 1] == Nested(AsLeaves(Split(doc, delim)));
    FlattenFlat(Split(doc, delim));
    assert LeavesOf(all[|all| - 1]) == Split(doc, delim);
  }

  /** Since splitting keeps empty fields, a non-empty document list always has
      a word, and so at least one entry when `n >= 1`. */
  lemma MostCommonWordsNonEmpty(docs: seq<string>, n: int, delim: char)
    requires docs != [] && n >= 1
    ensures |GetMostCommonWords(docs, n, delim)| >= 1
  {
    var init := docs[..|docs| - 1];
    assert docs == init + [docs[|docs| - 1]];
    TokensAppend(init, docs[|docs| - 1], delim);
    var ws := Tokens(docs, delim);
    assert ws[|ws| - 1] in (set w | w in ws);
    MostCommonLength(ws, n);
  }

  /** An empty document yields the single pair `('', 1)`. */
  lemma MostCommonWordsOfEmptyDocument(n: int)
    requires n >= 1
    ensures GetMostCommonWords([""], n, ' ') == [WordCount("", 1)]
  {
    TokensAppend([], "", ' ');
    assert Split("", ' ') == [""];
    var ws := Tokens([""], ' ');
    assert ws == [""];
    var d := Distinct(ws);
    assert d == [""] by {
      assert ws[..0] == [];
    }
    assert multiset(ws)[""] == 1;
    var items := Tally(ws);
    assert items == [WordCount("", 1)];
    assert SortByCount(items) == [WordCount("", 1)] by {
      assert items[..0] == [];
    }
  }
}
