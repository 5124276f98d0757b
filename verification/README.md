# Gambling-site classifier and link lister, modelled in Dafny

This project models the core of a small Python repository with two command-line tools.

- **The gambling-site classifier** (`teht2/classifier.py` and its helpers in
  `assignment2/helpers/preprocessing.py`):
  - It fetches a page, keeps its visible text, lower-cases it and removes special characters.
  - It lemmatizes the words and drops stopwords.
  - It builds a profile of the page's 150 most common words.
  - It compares the profile with a fixed fingerprint of common gambling words.
  - It calls the page a gambling site exactly when the share of shared words is strictly above a
    threshold. The threshold is either the built-in default or one calibrated from a file of
    known gambling sites.
- **The link lister** (`teht1/main.py`):
  - It prefixes the user's input with `http://` when it lacks `http`.
  - It derives the URL's host name, domain, top-level domain and path.
  - It collects the page's hyperlinks into a set.
  - It sorts them into "Same host", "Same domain" and "Different domain".

Modules:

- `Wrappers`: `Option` and `Result`.
- `Seqs`: subsequences, filtering and duplicate-free sequences.
- `PyStr`: the Python string operations the code relies on: `split`, `join`, `strip`, `lower`,
  `isalnum` and `in` on strings.
- `Counter`: `collections.Counter(...).most_common(n)`.
- `Preprocessing`, `Classifier` and `LinkParser`: one module per core file.

Collaborators outside the core are parameters, not models:

- HTTP, the HTML parser, the NLTK tokenizer, lemmatizer and stopword list, and `urljoin`.
- A fetched page is a `Fetch` value: a failed request, or a status code with the page's text
  nodes.
- A tokenizer or lemmatizer is a function parameter.
- The stopword list and the gambling-word fingerprint are sets of strings.

Behaviour of the code that the model keeps:

- Threshold calibration profiles the raw page text with no lemmatizing or stopword removal
  (`teht2/classifier.py:38-39`). Classification does preprocess.
- In `classify_site` the profile is never empty, so the division at `teht2/classifier.py:78-79`
  cannot raise. `ClassifySite` proves this. The split of any string yields at least one field,
  so even an all-stopword page has the single word `""`.
- An unreadable training file yields the threshold `0`, not the default
  (`teht2/classifier.py:49-51`).
- A netloc whose every label contains `www` makes `parse_url` fail on `domains[-1]`
  (`teht1/main.py:40`). A label such as `awwwards` is dropped just like `www`.

## Model

| member | source | states |
|---|---|---|
| Preprocessing.TagVisible | assignment2/helpers/preprocessing.py:12-22 | a text node is invisible exactly when its parent is style, script, head, title, meta or the document root, or when it is a comment |
| Preprocessing.TextFromHtml | assignment2/helpers/preprocessing.py:26-35 | defined as the stripped texts of the visible nodes joined by single spaces; its contract states that the stripped text of every visible node occurs in the result as a substring |
| Preprocessing.HiddenNodeIgnored | assignment2/helpers/preprocessing.py:26-35 | inserting a hidden node anywhere leaves the extracted page text unchanged |
| Preprocessing.Flatten | assignment2/helpers/preprocessing.py:38-50 | the loop with its recursive calls returns the leaves of the nested list in left-to-right order |
| Preprocessing.LeavesConcat | assignment2/helpers/preprocessing.py:45-49 | flattening distributes over concatenation, which is what `extend` relies on |
| Preprocessing.FlattenFlat | assignment2/helpers/preprocessing.py:38-50 | flattening a list with no nested lists gives back its elements |
| PyStr.Strip | assignment2/helpers/preprocessing.py:59 | the result is a contiguous slice of the input, every character outside that slice is whitespace, and the slice neither starts nor ends with whitespace; so every non-whitespace character is kept as often as it occurs |
| Preprocessing.RemoveSpecialChars | assignment2/helpers/preprocessing.py:53-59 | the result holds only letters, digits and spaces, with no space at either end; every letter and digit of the input is kept as often as it occurs; the result is the input's letters, digits and spaces in order, with only the spaces at both ends removed |
| Preprocessing.RemoveSpecialCharsIdempotent | assignment2/helpers/preprocessing.py:53-59 | cleaning a cleaned string changes nothing |
| PyStr.Lower | assignment2/helpers/preprocessing.py:107 | same length; no upper-case letter remains, only upper-case letters change, and letters and digits stay letters and digits |
| Preprocessing.GetTextsFromUrl | assignment2/helpers/preprocessing.py:95-112 | a failed request or a status other than 200 gives `""`; otherwise the text is the lower-cased page text's letters, digits and spaces in their order, with only the spaces at both ends removed; so it holds only lower-case letters, digits and spaces, with no space at either end, and each letter or digit occurs as often as in the lower-cased page text |
| Preprocessing.VisibleCharacterKept | assignment2/helpers/preprocessing.py:95-112 | on a 200 response, every letter or digit of a visible node appears, lower-cased, in the fetched text |
| Preprocessing.HiddenNodeIgnoredInPage | assignment2/helpers/preprocessing.py:95-112 | inserting a hidden node anywhere in a page leaves the fetched text unchanged, whatever the status |
| Preprocessing.ExtractedTextIsNormalised | assignment2/helpers/preprocessing.py:107-109 | lower-casing and cleaning the extracted text again changes nothing |
| Preprocessing.LemmatizeWordArr | assignment2/helpers/preprocessing.py:62-74 | the result has the input's length, and each word is the lemma of the word at the same position |
| Preprocessing.WithoutStopwords | assignment2/helpers/preprocessing.py:88-89 | the kept words are a subsequence of the input; none lower-cases to a stopword; every other word keeps all its occurrences |
| Preprocessing.PreprocessTextDocuments | assignment2/helpers/preprocessing.py:77-92 | one output per document: its lemmatized tokens without stopwords, joined by single spaces |
| PyStr.Split | assignment2/helpers/preprocessing.py:124 | `s.split(sep)` yields at least one field and no field contains the separator; characterised by SplitFieldCount, JoinSplit and SplitJoin |
| PyStr.Join | teht1/main.py:41-42 | `sep.join(parts)` contains each part as a substring; JoinSplit and SplitJoin make it the inverse of Split |
| PyStr.SplitFieldCount | assignment2/helpers/preprocessing.py:124 | `split(delim)` yields one more field than the string has delimiters |
| PyStr.JoinSplit | assignment2/helpers/preprocessing.py:124 | joining the fields of `split(delim)` with the delimiter gives back the string |
| Preprocessing.TokensAppend | assignment2/helpers/preprocessing.py:124 | the word list of the documents plus one more is the old word list followed by the new document's fields |
| Counter.Distinct | assignment2/helpers/preprocessing.py:125 | the counter's keys are duplicate-free and are exactly the words of the input |
| Counter.DistinctInFirstSeenOrder | assignment2/helpers/preprocessing.py:125 | the counter's keys appear in order of each word's first occurrence |
| Counter.MostCommon | assignment2/helpers/preprocessing.py:125-126 | defined as the first `n` entries of the stably sorted tally; none for `n <= 0`; each entry is a word of the input with its exact count; characterised further by MostCommonRanked, MostCommonLength and MostCommonIsTop |
| Counter.MostCommonRanked | assignment2/helpers/preprocessing.py:125-126 | each entry is a word of the input with its exact count; words are distinct; counts do not increase; equal counts keep first-seen order |
| Counter.MostCommonLength | assignment2/helpers/preprocessing.py:126 | the result has `min(n, number of distinct words)` entries, and none when `n <= 0` |
| Counter.MostCommonIsTop | assignment2/helpers/preprocessing.py:126 | a word left out of the result ranks below every entry in it |
| Preprocessing.GetMostCommonWords | assignment2/helpers/preprocessing.py:116-126 | defined as `most_common(n)` of all fields of all documents; none for `n <= 0`; each entry has a count of at least 1 and its word is a field of one of the documents; ranking, length and top-n are stated by the Counter lemmas |
| Preprocessing.MostCommonWordsNonEmpty | assignment2/helpers/preprocessing.py:116-126 | for at least one document and a positive limit, the profile is never empty |
| Preprocessing.MostCommonWordsOfEmptyDocument | assignment2/helpers/preprocessing.py:116-126 | the profile of the single empty document is the word `""` with count 1 |
| Classifier.OverlapRatio | teht2/classifier.py:78-79 | the share of profile words found in the fingerprint lies in [0, 1]; it is undefined, the `ZeroDivisionError`, exactly when the profile is empty |
| Classifier.OverlapRatioExtremes | teht2/classifier.py:78-79 | the ratio is 1 exactly when every profile word is in the fingerprint, and 0 exactly when none is |
| Classifier.OverlapRatioExample | teht2/classifier.py:43-44 | a profile of bet, bonus and win against the fingerprint bet, win and jackpot scores 2/3 |
| Classifier.Decide | teht2/classifier.py:81-84 | the verdict is gambling exactly when the ratio strictly exceeds the threshold |
| Classifier.DecideMonotone | teht2/classifier.py:81 | a higher ratio never turns a gambling verdict into a non-gambling one; a ratio equal to the threshold is non-gambling |
| Classifier.ClassifySite | teht2/classifier.py:62-84 | the run exits without a verdict exactly when the page text is empty; it never divides by zero; a verdict agrees with the page's ratio against the threshold |
| Classifier.RatioSumBounds | teht2/classifier.py:37-45 | the accumulated similarity is between 0 and the number of scored pages |
| Classifier.CalibrationDivisor | teht2/classifier.py:40-47 | the divisor, lines minus errors, counts exactly the pages whose profile has at least 20 entries |
| Classifier.AverageRatioBounds | teht2/classifier.py:47 | the calibrated threshold lies in [0, 1], and is 0 when no page was scored |
| Classifier.Calibration | teht2/classifier.py:27-51 | defined as the average ratio of the training pages whose profile has at least 20 entries; it lies in [0, 1], and is 0 for an unreadable file and when every page is skipped |
| Classifier.RetrainClassifier | teht2/classifier.py:27-51 | the loop computes the average ratio of the scored training pages; the result lies in [0, 1] and is 0 for an unreadable file |
| Classifier.GamblingSiteThreshold | teht2/classifier.py:54-59 | the default threshold without a training set, otherwise the calibrated one; in [0, 1] either way |
| LinkParser.PrefixScheme | teht1/main.py:77-78 | the URL always contains `http`; an input that already does is unchanged, any other gets `http://` in front |
| LinkParser.PrefixSchemeIdempotent | teht1/main.py:76-78 | prefixing twice is the same as prefixing once |
| LinkParser.HostLabels | teht1/main.py:38-39 | the kept labels are a subsequence of the netloc's dot-separated labels; none contains `www` or a dot; every label without `www` is kept as often as it occurs; none are kept exactly when every label contains `www` |
| PyStr.SplitJoin | teht1/main.py:42 | splitting the dot-joined labels on the dot gives back the labels |
| LinkParser.UrlPropertiesOf | teht1/main.py:37-43 | fails, the `IndexError` of `domains[-1]`, exactly when every label of the netloc contains `www`; the path is `/` when the parsed path is empty and unchanged otherwise |
| LinkParser.HostnameOfUrl | teht1/main.py:39-42 | the host name splits back into the labels without `www`; the top-level domain is the last of them and ends the host name |
| LinkParser.DomainOfUrl | teht1/main.py:41 | the domain splits into the netloc's last two labels, or all of them when there are fewer, and is a suffix of the netloc |
| LinkParser.Resolve | teht1/main.py:25 | an anchor without `href` resolves to the page address itself |
| LinkParser.ParsePageForLinks | teht1/main.py:8-27 | the links are the set of all hrefs other than `#` and `javascript:void(0)`, resolved against `https://host/path`; there are at most as many links as hrefs |
| LinkParser.BucketOf | teht1/main.py:48-53 | a link is "Same host" exactly when it contains `://host` or `//www.host`; otherwise "Same domain" exactly when it contains the domain |
| LinkParser.PageLinksAreSameHost | teht1/main.py:15-48 | every link that starts with the page's own address is "Same host" |
| LinkParser.BucketLinks | teht1/main.py:45-53 | each list holds exactly the links of its group, without duplicates, and the three lists together have as many entries as the set of links |
| LinkParser.ParseUrl | teht1/main.py:30-56 | fails exactly when the URL's properties do; otherwise returns those properties with the page's links grouped as above |

## Left out

- Network access (`requests.get`, `urllib.request.urlopen`, the 10-second timeout) is left out.
  A fetched page is an input, and an exception is the `RequestFailed` case.
- HTML parsing by BeautifulSoup is left out. A page is the sequence of its text nodes, each with
  its parent's tag name and a comment flag. For the link lister it is the sequence of its
  anchors' `href` values.
- NLTK's `word_tokenize`, `WordNetLemmatizer` and English stopword list are parameters.
- `urllib.parse.urlparse` is left out: the parsed netloc and path are inputs. `urljoin` is a
  parameter, except for a missing href, which it turns into the base address.
- The pandas CSV read of `most_common_gambling_words.csv` is left out: its `word` column is the
  fingerprint set.
- The scripts' top-level code is left out: `sys.argv` handling, `sys.exit`, `print` and
  `display_parsed_url`.
- The link lister's retry loop on `URLError`, which reads a new URL with `input`, is left out;
  only its prefixing step is modelled.
- teht2/generate_most_common_words.py, which builds the fingerprint file, is not part of this
  model.
- Floating point is left out. Ratios, sums and the average are exact reals, so rounding in the
  last bits of `DEFAULT_GAMBLING_SITE_THRESHOLD` and of sums of ratios is not modelled.
- PyStr.IsAlnum: `str.isalnum`, `str.lower` and `str.strip` are modelled on ASCII only. Unicode
  letters and digits, and Unicode whitespace other than the ASCII and 0x1c-0x1f separators, are
  not captured.
- Preprocessing.GetMostCommonWords: the delimiter is a single character. That is the only use in
  the code, and Python also accepts longer delimiters.
- Preprocessing.Flatten: the nested list is a tree of `Leaf` and `Nested` items. The `isinstance`
  test of a mixed Python list is not captured.
- LinkParser.BucketLinks: iteration over the Python set is taken in an arbitrary order, so the
  order within each list is not specified.
- LinkParser.UrlPropertiesOf: `urlparse` only supplies the netloc and the path, and the lister
  treats the result as a dictionary of four strings; nothing else of a URL is modelled.
