# pycommon in Dafny

A model of the general-purpose helpers in the `pycommon` Python package,
with proofs of what they promise:

- **Sequence and mapping helpers** from `pycommon/__init__.py`: `lfind`, `rfind`,
  `head`, `window`, `prefixes`, `suffixes`, `product`, `pick`, `omit`,
  `invert`, `select`, `uniq`, `uniq_c`, `groupby_select` and `strict_groupby`.
  The module also contains the `itertools.groupby` and `sorted(key=...)` they
  rely on.
- **Graphs** from `pycommon/graph.py`: `iter_bidirectional`, `graph_map`,
  `get_component` and `get_all_components`. A graph is a map from each node
  to the set of nodes it links to.
- **`AlgebraicDict`** from `pycommon/algebraic.py`: a mutable dictionary with
  element-wise `+`, `*` and `**` and a `sum`.
- **Notebook HTML** from `pycommon/notebook.py`: the tag helpers,
  `escape_html`, `key_value`, and the `_repr_html_` of `Table`, `DictTable`,
  `String` and `Dict`. A reader for that HTML (`HtmlReader`) is the partner
  the renderers are proved against: reading a rendering back gives the data.
- **Text** from `pycommon/text.py`: `normalize_whitespace`, `tokenize` with
  `default_stopwords`, and the token rule of `TextFile.tokens` and
  `TextFile.token_set`, applied to a given string.
- **Memoised properties** from `pycommon/memo.py`: the `fget` of
  `memoized_property`.

Files:

- `wrappers.dfy`: `Option`, `Result` and the Python exceptions the model raises.
- `pycommon.dfy`
- `graph.dfy`
- `algebraic.dfy`
- `notebook.dfy`
- `html_reader.dfy`
- `text.dfy`
- `memo.dfy`

Modelling choices:

- **Python exceptions** are `Failure` results:
  - `ValueError` from `list.index` and `islice`.
  - `IndexError` from indexing.
  - `KeyError` from a dictionary lookup. In the graph functions, the failure
    carries the missing node.
- **Iteration order of a Python `set`** is not fixed by the language. The
  model picks an arbitrary element each time (`Wrappers.Pop`, `:|`), so every
  proof holds for every order. This covers `set.pop()` in the graph
  functions and the key order of `DictTable`. `AlgebraicDict.sum` iterates
  the values of a dictionary, not a set. Its order is likewise left open, and
  its proof holds for every order.
- **Generators** become functions or methods that return the whole sequence
  they would yield.
- **Dictionaries that are iterated in order** (`invert`, `Dict`) are given as
  their sequence of `(key, value)` items.
- **`getter_function(self)`** in `memoized_property` is a value. It stands for
  what the getter would return on this access. A call counter per getter name
  records how often it ran.

Behaviour at the edges of the graph functions:

- `get_component` reads `graph[unprocessed_id]` for every node it reaches,
  so a reached node that is not a key raises `KeyError`
  (`Graph.GetComponent`, `graph.py:53`). The same holds for a `source_id`
  that is not a key.
- The docstring of `get_all_components` promises a partition. That holds
  when every link has its reverse link, which is what `graph_map` over
  `iter_bidirectional` produces (`Graph.SymmetricPartition`). For a one-way
  link, the components can overlap (`Graph.DirectedComponentsMayOverlap`).
- `Table` and `DictTable` do not escape their cells, and the default
  `missing` placeholder of `DictTable` is itself markup. Their round trips
  therefore hold only for cells without `<` (`HtmlReader.TableRoundTrip`,
  `HtmlReader.DictTableRoundTrip`). With the default placeholder, a record
  without the key is not read back at all (`HtmlReader.DefaultMissingUnread`).
  `Dict` escapes keys and values, and its round trip holds for all text.

## Model

| member | source | states |
|---|---|---|
| Pycommon.Lfind | pycommon/__init__.py:13-19 | The result is an index exactly when `x` occurs in `xs`. It is the index of an `x`, and no earlier element is `x`. Otherwise the result is `ValueError`. |
| Pycommon.Rfind | pycommon/__init__.py:22-28 | The result is an index exactly when `x` occurs. It is the index of an `x`, and no later element is `x`. Otherwise the result is `ValueError`. |
| Pycommon.Reverse | pycommon/__init__.py:28 | `xs[::-1]` has the same length, with element `i` being `xs[len - 1 - i]`. |
| Pycommon.Head | pycommon/__init__.py:44-48 | A negative `n` gives `ValueError`. Otherwise the result has the first `min(n, len)` elements in order. |
| Pycommon.HeadByDefault | pycommon/__init__.py:44-48 | With the default `n=10`, `head` returns the first ten elements, or all of a shorter input. |
| Pycommon.Window | pycommon/__init__.py:51-69 | A negative width gives `ValueError`. A width longer than the input yields nothing. A width `1 <= n <= len` yields every `n`-wide slice in order. Width 0 yields the empty tuple, then one 1-tuple per element, as the loop as written does. |
| Pycommon.Prefixes | pycommon/__init__.py:72-81 | There are `len + 1` prefixes, and prefix `i` is `xs[:i]`. |
| Pycommon.Suffixes | pycommon/__init__.py:84-95 | There are `len + 1` suffixes, and suffix `i` is `xs[len - i:]`. |
| Pycommon.Product | pycommon/__init__.py:98-103 | The product of no factors is 1, of one factor is that factor, and of factors that are all at least 1 is at least 1. |
| Pycommon.ProductConcat | pycommon/__init__.py:98-103 | The product of a concatenation is the product of the products. |
| Pycommon.ProductZero | pycommon/__init__.py:98-103 | The product is zero exactly when some factor is zero. |
| Pycommon.Pick | pycommon/__init__.py:106-112 | The keys are those of `mapping` that are also in `keys`, with their values unchanged. |
| Pycommon.Omit | pycommon/__init__.py:115-121 | The keys are those of `mapping` that are not in `keys`, with their values unchanged. |
| Pycommon.PickOmitSplit | pycommon/__init__.py:106-121 | `pick` and `omit` with the same keys are disjoint, and together they give back `mapping`. |
| Pycommon.Invert | pycommon/__init__.py:124-129 | The keys are exactly the original values. Each value maps to the key of its last occurrence in iteration order. |
| Pycommon.Select | pycommon/__init__.py:132-138 | The result succeeds exactly when every index is within range, counting negative indices from the end. Element `j` is then `xs[indices[j]]`. Otherwise the result is `IndexError`. |
| Pycommon.GroupBy | pycommon/__init__.py:148 | `itertools.groupby` cuts the input into consecutive non-empty runs of equal key. Each run carries its key, adjacent runs differ in key, and the runs concatenate to the input. |
| Pycommon.RunGroupingUnique | pycommon/__init__.py:148 | There is only one such grouping of a given input. |
| Pycommon.FirstRunMaximal | pycommon/__init__.py:148 | The first run is a prefix of the input with the first element's key. It stops exactly where that key changes. |
| Pycommon.FlattenMember | pycommon/__init__.py:148 | An element occurs in the flattened runs exactly when it occurs in some run. |
| Pycommon.SortBy | pycommon/__init__.py:174 | `sorted(key=...)` returns a permutation of the input that is ordered by key. |
| Pycommon.SortByStable | pycommon/__init__.py:174 | The sort is stable: the elements with any one key keep their input order. |
| Pycommon.Uniq | pycommon/__init__.py:141-149 | Consecutive values differ, and the result is empty exactly when the input is. It holds exactly the keys that occur in the input. |
| Pycommon.UniqIsRunKeys | pycommon/__init__.py:141-149 | For any grouping of the input into maximal runs, `uniq` is the keys of those runs in order. |
| Pycommon.RunCountsTotal | pycommon/__init__.py:152-157 | The counts of the runs add up to the number of grouped elements. |
| Pycommon.UniqC | pycommon/__init__.py:152-157 | Every count is at least 1, and consecutive values differ. The counts add up to the input length. |
| Pycommon.UniqCIsRunCounts | pycommon/__init__.py:152-157 | For any grouping of the input into maximal runs, `uniq_c` is each run's key with its length, in order. |
| Pycommon.MapSeqConcat | pycommon/__init__.py:166 | Mapping `valfunc` over a concatenation is the concatenation of the mapped parts. |
| Pycommon.GroupbySelect | pycommon/__init__.py:160-166 | The groups are non-empty and consecutive keys differ. The groups concatenated are `valfunc` applied to the input in order. |
| Pycommon.GroupbySelectIsSelectRuns | pycommon/__init__.py:160-166 | For any grouping of the input into maximal runs, the result is each run's key with `valfunc` applied to its members, in order. |
| Pycommon.StrictGroupby | pycommon/__init__.py:169-175 | The groups are non-empty, and concatenated they are the stably sorted input. Group keys strictly ascend, and every member of a group has its key. |
| Pycommon.StrictGroupbyIsSortedRuns | pycommon/__init__.py:169-175 | The result is the one grouping of the key-sorted input into maximal runs. |
| Pycommon.SortedRunsAscend | pycommon/__init__.py:174 | The runs of a key-sorted sequence have strictly ascending keys, so no key appears in two groups. |
| Graph.IterBidirectional | pycommon/graph.py:4-17 | The output is twice as long as the input. Each edge is followed by its reverse, in input order. |
| Graph.BidirectionalMember | pycommon/graph.py:15-17 | An edge is yielded exactly when it or its reverse is an input edge. |
| Graph.DictOf | pycommon/graph.py:32 | `dict(pairs)` has exactly the pairs' first components as keys. Later pairs overwrite earlier ones: every pair that no later pair shares a key with gives its key's value, the last pair included. |
| Graph.GraphMap | pycommon/graph.py:19-32 | The keys are exactly the sources of the edges. Each source maps to the set of targets of its edges. |
| Graph.GraphMapKeys | pycommon/graph.py:31-32 | Sorting by source and grouping gives one dictionary entry per source. |
| Graph.GraphMapValues | pycommon/graph.py:31-32 | Each entry holds all targets of that source: sorting puts every edge of a source into its one run. |
| Graph.ReachableTransitive | pycommon/graph.py:34-45 | "Connected to" is transitive. |
| Graph.ClosedContainsReachable | pycommon/graph.py:46-54 | A set of keys closed under links holds every node reachable from any of its members. |
| Graph.GetComponent | pycommon/graph.py:34-54 | On success the result is exactly the set of nodes reachable from `source_id`. It holds `source_id` and only keys. The walk succeeds exactly when every reachable node is a key. Otherwise it raises `KeyError` for a reachable node that is not a key, and a missing `source_id` fails at once. |
| Graph.WalkStep | pycommon/graph.py:48-53 | One pop-and-update step keeps the walk's invariant: processed nodes are reachable keys, and their links are processed or pending. |
| Graph.QueuedStep | pycommon/graph.py:71-75 | Taking the component of a popped key and removing it from the queue keeps the invariant. The queue holds keys in no component yet, and every key is queued or covered. |
| Graph.QueuedDone | pycommon/graph.py:71 | When the queue is empty, the components cover every key. |
| Graph.GetAllComponents | pycommon/graph.py:56-76 | Each yielded set is the component of a start key that lay in no earlier component. The components cover only keys. Without an error they cover every key. A `KeyError` names a non-key that is reachable from some key. |
| Graph.ReachableSymmetric | pycommon/graph.py:67-68 | When every link has its reverse, connectivity from a key is symmetric and stays among keys. |
| Graph.SymmetricNeverRaises | pycommon/graph.py:53 | When every link has its reverse, no lookup fails. |
| Graph.SymmetricComponentsDisjoint | pycommon/graph.py:67-68 | When every link has its reverse, the yielded components are pairwise disjoint. |
| Graph.BidirectionalMapSymmetric | pycommon/graph.py:4-32 | `graph_map(iter_bidirectional(edges))` has every link's reverse. |
| Graph.BidirectionalMapKeys | pycommon/graph.py:4-32 | The keys of `graph_map(iter_bidirectional(edges))` are every node that touches an edge. |
| Graph.SymmetricPartition | pycommon/graph.py:67-68 | With every link reversed, the components are non-empty, pairwise disjoint and cover the keys: a partition. |
| Graph.SymmetricComponents | pycommon/graph.py:56-76 | On a map where every link has its reverse, `get_all_components` raises no `KeyError`. Its components are a valid run, none is empty, no two overlap, and together they are the keys. |
| Graph.BidirectionalComponents | pycommon/graph.py:4-76 | `get_all_components(graph_map(iter_bidirectional(edges)))` never fails. Its components are non-empty, pairwise disjoint, and together they are every node named by an edge. |
| Graph.DirectedComponentsMayOverlap | pycommon/graph.py:67-68 | For the graph `{1: {2}, 2: {}}`, popping 2 first yields `{2}` and then `{1, 2}`. That is a valid run of the loop whose components overlap. |
| Algebraic.Plus | pycommon/algebraic.py:45-51 | `+` keeps the keys and adds the scalar or the matching entry of the right-hand mapping. It raises `KeyError` exactly when that mapping lacks a key. |
| Algebraic.Times | pycommon/algebraic.py:53-59 | `*` keeps the keys and multiplies by the scalar or the matching entry. It raises `KeyError` exactly when that mapping lacks a key. |
| Algebraic.IntPow | pycommon/algebraic.py:80 | `b ** 0` is 1, `b ** 1` is `b`, `0 ** n` is 0 for positive `n`, `1 ** n` is 1, and a non-negative base gives a non-negative power. |
| Algebraic.IntPowAdd | pycommon/algebraic.py:80 | `b ** (m + n) == b ** m * b ** n`. |
| Algebraic.Power | pycommon/algebraic.py:76-80 | `**` keeps the keys and raises each value to the exponent. |
| Algebraic.MapSumRemove | pycommon/algebraic.py:84-89 | The sum of the values is any one value plus the sum of the rest, whatever the iteration order. |
| Algebraic.SumPlusScalar | pycommon/algebraic.py:45-51 | `(d + c).sum() == d.sum() + c * len(d)`. |
| Algebraic.SumTimesScalar | pycommon/algebraic.py:53-59 | `(d * c).sum() == c * d.sum()`. |
| Algebraic.SumPlusMapping | pycommon/algebraic.py:45-50 | For mappings with the same keys, `(a + b).sum() == a.sum() + b.sum()`. |
| Algebraic.Identities | pycommon/algebraic.py:45-80 | `d + 0`, `d * 1` and `d ** 1` equal `d`. |
| Algebraic.Commutative | pycommon/algebraic.py:45-59 | For mappings with the same keys, `+` and `*` commute. |
| Algebraic.PowerStep | pycommon/algebraic.py:53-80 | `d ** n * d == d ** (n + 1)`. |
| Algebraic.AlgebraicDict.constructor | pycommon/algebraic.py:20-21 | The new dictionary holds the given entries. |
| Algebraic.AlgebraicDict.Get | pycommon/algebraic.py:25-26 | The lookup gives the stored value of a present key and `KeyError` otherwise. |
| Algebraic.AlgebraicDict.Len | pycommon/algebraic.py:37-38 | The length is the number of keys. |
| Algebraic.AlgebraicDict.SetItem | pycommon/algebraic.py:28-29 | The key now holds the value and every other entry is unchanged. The length grows by one exactly when the key is new. |
| Algebraic.AlgebraicDict.DelItem | pycommon/algebraic.py:31-32 | A missing key raises `KeyError` and changes nothing. Otherwise only that key is removed, and the length drops by one. |
| Algebraic.AlgebraicDict.Add | pycommon/algebraic.py:45-51 | The result is a new `AlgebraicDict` holding `Plus`, or the same `KeyError`. |
| Algebraic.AlgebraicDict.Mul | pycommon/algebraic.py:53-59 | The result is a new `AlgebraicDict` holding `Times`, or the same `KeyError`. |
| Algebraic.AlgebraicDict.Pow | pycommon/algebraic.py:76-80 | The result is a new `AlgebraicDict` holding `Power`. |
| Algebraic.AlgebraicDict.Sum | pycommon/algebraic.py:84-89 | The loop over the values, in whatever order, returns the sum of all values, and 0 for an empty dictionary. |
| Notebook.Wrap | pycommon/notebook.py:1-11 | `'<tag>%s</tag>' % inner` adds exactly the two tags around the content. |
| Notebook.Td | pycommon/notebook.py:1-2 | `td` puts exactly `<td>` before and `</td>` after the content. |
| Notebook.Th | pycommon/notebook.py:4-5 | `th` puts exactly `<th>` before and `</th>` after the content. |
| Notebook.Tr | pycommon/notebook.py:7-8 | `tr` puts `<tr>` and `</tr>` around the cells joined with nothing between them. |
| Notebook.Table | pycommon/notebook.py:10-11 | `table` puts `<table>` and `</table>` around the rows joined with nothing between them. |
| Notebook.Div | pycommon/notebook.py:85 | The `div` of `Dict` puts exactly `<div>` before and `</div>` after the content. |
| Notebook.Cells | pycommon/notebook.py:38 | One element per item, in order, wrapping that item. |
| Notebook.EscapeChar | pycommon/notebook.py:14-19 | The translation leaves no `<` or `>`, and every character outside `<`, `>` and `&` stays. |
| Notebook.EscapeHtml | pycommon/notebook.py:20-21 | The output has no `<` or `>`. Text without the three special characters is unchanged. |
| Notebook.EscapeHtmlConcat | pycommon/notebook.py:20-21 | Escaping distributes over concatenation. |
| Notebook.KeyValue | pycommon/notebook.py:69-71 | `key_value` is the opening span and bold tag, the escaped key, the arrow, the escaped value and the closing span, in that order and nothing else. |
| Notebook.KeyValues | pycommon/notebook.py:85 | One `key_value` span per item, in order. |
| Notebook.Rows | pycommon/notebook.py:38 | One `tr` per row, wrapping that row's cells. |
| Notebook.RecordCells | pycommon/notebook.py:54 | Cell `j` is `record.get(keys[j], missing)`. |
| Notebook.CellMatrix | pycommon/notebook.py:54 | Row `i` holds the cells of record `i`. |
| Notebook.TableView.ReprHtml | pycommon/notebook.py:37-38 | `Table._repr_html_` is `<table>` around one `tr` per row, each holding one `td` per cell, in order. |
| Notebook.StringView.ReprHtml | pycommon/notebook.py:65-66 | `String._repr_html_` holds no `<` or `>`, and returns text without `<`, `>` and `&` unchanged. |
| Notebook.DictView.ReprHtml | pycommon/notebook.py:84-85 | `Dict._repr_html_` is `<div>` around the `key_value` spans of the items, in order, joined by single spaces. |
| Notebook.DictTableHtml | pycommon/notebook.py:53-55 | The table is `<table>` around a header row of `th` keys followed by one `td` row per record. |
| Notebook.SetElements | pycommon/notebook.py:52 | Iterating a set gives each element once. |
| Notebook.DictTable.constructor | pycommon/notebook.py:45-48 | The new object stores the records, keys and placeholder as given. |
| Notebook.DictTable.ReprHtml | pycommon/notebook.py:50-55 | With no keys yet, the first render fixes them to the distinct keys of all records and keeps them. Given keys are never changed. The HTML is a header row of the keys and one row per record. |
| Notebook.RenderTwice | pycommon/notebook.py:50-55 | Rendering twice gives the same HTML, because the keys fixed the first time are reused. |
| HtmlReader.UnwrapWrap | pycommon/notebook.py:1-11 | `td`, `th`, `tr` and `table` keep their content intact: unwrapping gives it back. |
| HtmlReader.UnescapeEscape | pycommon/notebook.py:14-21 | Escaping loses nothing: unescaping the output gives the text back. |
| HtmlReader.ReadLeavesCells | pycommon/notebook.py:7-8 | The cells of a row read back as the row's items, in order. |
| HtmlReader.ReadRowsOf | pycommon/notebook.py:10-11 | The rows of a table read back in order. |
| HtmlReader.TableRoundTrip | pycommon/notebook.py:26-38 | Reading `Table._repr_html_` back gives the rows, for cells without `<`. |
| HtmlReader.DictTableRoundTrip | pycommon/notebook.py:50-55 | Reading `DictTable._repr_html_` back gives the keys in the header. It then gives, for each record in order, `record.get(key, missing)` over the keys. This needs keys, values and placeholder without `<`. |
| HtmlReader.MarkupLeafUnread | pycommon/notebook.py:1-2 | A cell whose content starts with an opening tag is not read as a leaf. |
| HtmlReader.MarkupRowUnread | pycommon/notebook.py:7-8 | A `tr` whose one cell starts with an opening tag is not read back as a row. |
| HtmlReader.MarkupTableUnread | pycommon/notebook.py:50-55 | A `DictTable` rendering with a header of plain keys and a single body row, whose one cell starts with an opening tag, is not read back. |
| HtmlReader.DefaultMissingUnread | pycommon/notebook.py:45-55 | `DictTable([{}], keys=['k'])` with the default placeholder renders HTML that is not read back: the placeholder is markup, not text. |
| HtmlReader.ReadKeyValueOf | pycommon/notebook.py:69-71 | One `key_value` span reads back as its key and value, whatever characters they hold. |
| HtmlReader.ReadKeyValuesOf | pycommon/notebook.py:85 | Spans joined by single spaces read back as the items, in order. |
| HtmlReader.DictRoundTrip | pycommon/notebook.py:73-85 | Reading `Dict._repr_html_` back gives every key and value in order, whatever characters they hold. |
| Text.NormalizeChar | pycommon/text.py:43-44 | The five unusual whitespace characters become a space. Every other character stays, and none of the five is produced. |
| Text.NormalizeWhitespace | pycommon/text.py:47-51 | The length is unchanged. Each of tab, line feed, vertical tab, form feed and carriage return becomes a space, and every other character stays. |
| Text.NormalizedHasNoUnusualWhitespace | pycommon/text.py:43-51 | None of the five characters remains. |
| Text.NormalizeIdempotent | pycommon/text.py:47-51 | Normalising twice is the same as normalising once. |
| Text.Runs | pycommon/text.py:33 | `re.findall` over a repeated class returns non-empty tokens made only of class characters. |
| Text.RunsSplit | pycommon/text.py:33 | A character outside the class separates tokens: the tokens of `a + c + b` are those of `a` followed by those of `b`. |
| Text.RunsOfWhole | pycommon/text.py:33 | A string made only of class characters is one token, so matches are greedy and maximal. |
| Text.RunsOfGap | pycommon/text.py:33 | A string with no class character has no token. |
| Text.RunsKeepEveryClassChar | pycommon/text.py:33 | The tokens joined are exactly the class characters of the text, in order. |
| Text.LowerChar | pycommon/text.py:62 | `lower` maps capitals to the matching lowercase letter and keeps every other character. |
| Text.Lower | pycommon/text.py:62 | `string.lower()` lowers each character in place. |
| Text.LowerConcat | pycommon/text.py:62 | Lowering distributes over concatenation. |
| Text.DropStopwords | pycommon/text.py:62 | A token is kept exactly when it is not a stopword. |
| Text.DropStopwordsConcat | pycommon/text.py:62 | The stopword filter treats each token on its own. |
| Text.Tokenize | pycommon/text.py:57-62 | Tokens are non-empty, lowercase, word characters only, and never stopwords. A string is a token exactly when it is a maximal word run of the lowercased text and not a stopword. |
| Text.TokenizeSplit | pycommon/text.py:57-62 | A non-word character separates tokens: the tokens of `a + c + b` are those of `a` followed by those of `b`. |
| Text.TokenizeWord | pycommon/text.py:57-62 | A string of word characters alone is one token, its lowercase form, unless that is a stopword. |
| Text.TokenizeGap | pycommon/text.py:57-62 | A string with no word character has no token. |
| Text.TokenizeDefault | pycommon/text.py:54-62 | With `default_stopwords`, `tokenize('The')` is empty. |
| Text.TokenizeIgnoresCase | pycommon/text.py:62 | Lowering the text first does not change the tokens. |
| Text.TokenizeUnwords | pycommon/text.py:57-62 | Lowercase words that are not stopwords, joined by spaces, tokenize back to the same words in order. |
| Text.Tokens | pycommon/text.py:31-33 | `TextFile.tokens` gives non-empty tokens of `[-0-9A-Za-z_]` characters. |
| Text.TokenSet | pycommon/text.py:35-37 | `token_set` holds exactly the tokens. |
| Text.TokenSetSplit | pycommon/text.py:31-37 | The token set of text joined at a space is the union of the two sides' sets. |
| Text.RulesAgreeWithoutHyphen | pycommon/text.py:31-33 | Without `-`, the `tokens` rule and the `\w` rule find the same runs. |
| Memo.SlotName | pycommon/memo.py:19 | The cache attribute is `'__'` followed by the getter name. |
| Memo.SlotNameInjective | pycommon/memo.py:19 | Different getter names use different attributes. |
| Memo.Fget | pycommon/memo.py:21-26 | The getter runs exactly when the attribute is absent. It then stores its value there and returns it, and every other attribute is unchanged. Otherwise the stored value is returned and nothing changes. |
| Memo.FgetTwice | pycommon/memo.py:21-26 | The second access does not run the getter. It returns the first value, whatever the getter would give now. |
| Memo.FgetSeparate | pycommon/memo.py:19-25 | Accessing one property leaves another property's cache as it was. |
| Memo.AccessesFilled | pycommon/memo.py:22-23 | With the cache filled, any number of accesses run the getter zero times. Each returns the cached value and changes nothing. |
| Memo.AccessesFromEmpty | pycommon/memo.py:21-26 | From an empty cache, the getter runs exactly once over any run of accesses. Every access returns the value of that first call. |
| Memo.Instance.Get | pycommon/memo.py:21-26 | The object's attributes and return value are those of `Fget`. The getter's call count grows by one exactly when it ran. |
| Memo.ReadTwice | pycommon/memo.py:21-26 | Two reads return the same value and run the getter at most once. A filled cache is not recomputed. |

## Left out

- `pycommon/ml.py` and `pycommon/plot.py` are not part of this model. They depend on numeric and plotting libraries.
- `jaccard`, `AlgebraicDict.__div__`, `__truediv__` and `normalized` are left out because they produce floats.
- `margins` is left out. It reorders by an external ordering and slices for display.
- `__version__` and `setup.py` are left out because they are packaging.
- `AlgebraicDict.__iter__` and `__repr__` are left out. `collections.MutableMapping` mixin methods other than those modelled are left out too.
- `AlgebraicDict` values are mathematical integers. Python's numbers of other types and sizes are left out, and so is a negative exponent of `**`, whose result is a float.
- `Pycommon.Product`: the source calls `reduce`, a Python 2 built-in, and `key_value` calls `unicode`, also Python 2, while `text.py` uses Python 3's `str.maketrans`. The model gives each function its evident meaning (the product, the text). Under Python 3, `reduce` and `unicode` raise `NameError`. Under Python 2, importing `text.py` raises `AttributeError` at `str.maketrans`. Neither error is modelled.
- `TextFile` file access (`filename`, `exists`, `string`, the `encoding` argument and `__repr__`) is left out because it is file-system I/O. The token rule is modelled over a given string.
- `Text.Tokenize`, `Text.Lower` and `Text.LowerChar` use ASCII meanings of `\w` and `lower()`. Unicode letters and digits, and Unicode case mapping, are not modelled.
- `unicode()` conversion of keys and values in `key_value` is left out. Keys and values are given as strings.
- Generators are modelled as the full sequences they yield. Laziness is not modelled, and neither is what a partial consumption or an exception midway would have produced. In `get_all_components`, the components yielded before a `KeyError` are the ones returned with the failure.
- `memoized_property` returns a Python `property` object, which carries the getter's docstring and refuses assignment. The descriptor machinery is not modelled, only `fget`.
- The HTML strings are plain character sequences. `%` formatting of non-string cells is not modelled.
- `Graph.Node`: nodes are integers. The source accepts any hashable node, and needs comparable ones for `sorted` in `graph_map`. Other node types are not modelled.
- `Pycommon.SortBy` and `Pycommon.StrictGroupby` take integer sort keys. Python sorts by any mutually comparable keys and raises `TypeError` on keys it cannot compare. Other key types and that `TypeError` are not modelled.
- `Memo.Fget` and `Memo.AccessesFromEmpty` take the getter's value as given, so they assume the getter returns. A getter that raises stores nothing, and the next access runs it again. That case is not modelled.
- `Pycommon.Uniq` and `Pycommon.UniqC` always take a key function. The default `keyfunc=None`, which groups by the items themselves, is the case of the identity function `x => x` and is not modelled separately.
