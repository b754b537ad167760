# Review intake service: sentiment classifier and review table

This project models the decision logic of a small review-intake web service
(`app.py`) and proves properties of it.

- **The keyword classifier.** This is `analyze_sentiment` with its two stem lists, `SENTIMENT_DICT`.
  - It lower-cases the text, then tries every positive stem as a substring. A hit gives `positive`.
  - Only when no positive stem occurs does it try the negative stems. A hit gives `negative`; otherwise the label is `neutral`.
- **The review table.** This is `create_review` and `get_reviews`, with the database replaced by an in-memory table.
  - `create_review` refuses a missing or blank `text`. Otherwise it stores the stripped text with its label and a timestamp, under a fresh AUTOINCREMENT id.
  - `get_reviews` refuses an unknown non-empty `sentiment` filter. Otherwise it returns the matching rows newest first.

Files:

- `wrappers.dfy`: `Option` and `Result`.
- `strings.dfy`, module `Strings`: the Python string built-ins the service uses.
  - `str.lower`, as an explicit ASCII and Cyrillic map.
  - `str.strip`, with Python's whitespace set.
  - `needle in hay`, as a scan (`IsIn`) proved equal to a positional definition (`Contains`).
  - The order SQLite uses to compare TEXT values, as lexicographic code-point order (`Less`), with its order laws.
- `sentiment.dfy`, module `Sentiment`: the stem lists copied verbatim and the classifier `Analyze`.
  - Each Dafny line holds the stems of one line of `SENTIMENT_DICT` (app.py:13-18, 22-29), in the same order and with the same duplicates.
- `reviews.dfy`, module `Reviews`:
  - the `Review` row and the validation errors;
  - `CheckText` and `CheckFilter`, the request checks;
  - `Where` and `OrderByNewest`, the SQL query;
  - class `Store`, with `rows` (a `seq` in insertion order) and `nextId` (the AUTOINCREMENT counter), and methods `Create` and `List`.

Two consequences of the source, proved in the model:

- **Shadowed negative stems.** These three negative stems contain a positive stem: `некачествен` ⊃ `качествен`, `неэффективн` ⊃ `эффективн`, and `недоволен` ⊃ `доволен` (`недоволен` is listed twice). Positives are tried first, so these entries can never make a text negative.
  - A text that contains one of them is always positive: "Некачественный товар" is labelled `positive`.
  - `NegativeDecidedByUnshadowed` proves that the negative list behaves exactly like the list with its shadowed stems removed.
- **Listing order.** `NewestFirstUnique` proves that when no two rows share a timestamp, the newest-first order is unique. The only freedom the database has in ordering is among rows with equal timestamps.

Two details of the code that the model keeps:

- `if sentiment_filter:` (app.py:110) treats an empty `?sentiment=` like an absent one, so it lists everything instead of being refused.
- Lower-casing happens only inside the classifier. The stored text is the stripped text as submitted, in its original case.

## Model

| member | source | states |
|---|---|---|
| `Strings.LowerChar` | app.py:51 | The folded character is never an ASCII or Cyrillic capital. Characters that are not capitals are unchanged. A–Z and А–Я move up by 0x20, and U+0400–U+040F (Ё among them) by 0x50. |
| `Strings.Lower` | app.py:51 | `text.lower()` keeps the length, folds each character by `LowerChar`, and leaves no capital in the result. |
| `Strings.IsSpace` | app.py:70 | The characters `strip()` removes: exactly those Python's `str.isspace` accepts (the C0 separators U+0009–U+000D and U+001C–U+001F, the space, U+0085, U+00A0, U+1680, U+2000–U+200A, U+2028, U+2029, U+202F, U+205F and U+3000). |
| `Strings.LowerIdempotent` | app.py:51 | Lower-casing an already lower-cased text changes nothing. |
| `Strings.Strip` | app.py:70 | `strip()` returns a slice of the input. Everything cut off before and after it is whitespace, and the slice neither starts nor ends with whitespace. It is empty exactly when the input is all whitespace. |
| `Strings.StripBounds` | app.py:70 | Cutting the leading whitespace and then the trailing whitespace of what is left gives a slice with whitespace only outside it and at neither of its ends. The slice is empty exactly when the text is all whitespace. |
| `Strings.StripOfTrimmed` | app.py:70 | A non-empty text with no whitespace at either end is unchanged by `strip()`. |
| `Strings.StripIdempotent` | app.py:70 | Stripping a stripped text changes nothing, so stored texts are already stripped. |
| `Strings.IsIn` | app.py:54 | The scan `word in text_lower` is true exactly when the word occurs at some position of the text. |
| `Strings.ContainsTransitive` | app.py:54 | A substring of a substring of a text is a substring of that text. |
| `Strings.Less` | app.py:118 | The TEXT comparison behind `ORDER BY created_at`: code-point lexicographic order. Equal strings are never ordered, and a proper prefix comes first. |
| `Strings.LessFirstDifference` | app.py:118 | At the first position where two strings differ, the one with the smaller code point there comes first. With the prefix rule in `Less`, this fixes lexicographic code-point order. |
| `Strings.LessTotal` | app.py:118 | The text order behind `ORDER BY created_at`: any two distinct strings are ordered one way or the other. |
| `Strings.NotLessTransitive` | app.py:118 | The relation "not earlier than", used by `ORDER BY ... DESC`, is transitive. |
| `Sentiment.ParseLabel` | app.py:111 | A string names a label exactly when it is one of `positive`, `negative` or `neutral`, and then it is that label's name. |
| `Sentiment.Name` | app.py:55-61 | The label strings the classifier returns: always one of `positive`, `negative` and `neutral`. `ParseLabel` reads each back as its own label. |
| `Sentiment.PositiveStems` | app.py:11-20 | The 34 positive stems of `SENTIMENT_DICT`, verbatim and in source order. |
| `Sentiment.NegativeStems` | app.py:21-30 | The 46 negative stems of `SENTIMENT_DICT`, verbatim and in source order, with the duplicates `недостат` and `недоволен`. |
| `Sentiment.AnyIn` | app.py:53-55 | The `for word in ...: if word in text_lower` scan finds a hit exactly when some stem of the list occurs in the text. |
| `Sentiment.Analyze` | app.py:50-61 | The label is `positive` iff some positive stem occurs in the lower-cased text, whatever negative stems also occur. It is `negative` iff no positive stem occurs and some negative stem does. It is `neutral` iff no stem of either list occurs. |
| `Sentiment.AnalyzeNamesALabel` | app.py:50-61 | The result is always one of the three label names, and it reads back as the same label. |
| `Sentiment.AnalyzeIgnoresCase` | app.py:51 | Classifying the lower-cased text gives the same label as classifying the text itself. |
| `Sentiment.StemsNonEmpty` | app.py:11-31 | No stem in either list is the empty string. |
| `Sentiment.EmptyTextIsNeutral` | app.py:61 | The empty text is `neutral`. |
| `Sentiment.ShadowedStemMeansPositive` | app.py:53-55 | Take a stem that contains a positive stem. Any text containing that stem is `positive`. |
| `Sentiment.ShadowedNegativeStems` | app.py:22-29 | Entries 6, 13, 16 and 40 of the negative list are `некачествен`, `неэффективн` and `недоволен` (twice), and each contains a positive stem. |
| `Sentiment.NegativeTextAvoidsShadowedStems` | app.py:53-59 | A text labelled `negative` never contains `некачествен`, `неэффективн` or `недоволен`. |
| `Sentiment.Unshadowed` | app.py:21-30 | It keeps exactly the stems of a list that contain no positive stem. |
| `Sentiment.NegativeDecidedByUnshadowed` | app.py:53-61 | A text is `negative` iff it contains no positive stem and contains some negative stem that is not shadowed. |
| `Sentiment.PositiveWhenStemAt` | app.py:53-55 | A text that holds a lower-case positive stem at some position is `positive`. |
| `Sentiment.PositiveAroundStem` | app.py:53-55 | Any text of the form prefix, lower-case positive stem, suffix is `positive`. |
| `Sentiment.MixedReviewIsPositive` | app.py:53-55 | "Товар отличный, но доставка долгая" is `positive`, because it contains "отлич". |
| `Sentiment.PositiveBeatsNegative` | app.py:53-59 | "Всё хорошо, но плохо упаковано" is `positive` although it also contains the negative stem "плох". |
| `Sentiment.PoorQualityReviewIsPositive` | app.py:53-55 | "Некачественный товар" is `positive`, through the shadowed stem. |
| `Reviews.CheckText` | app.py:66-72 | A missing `text` is refused as missing, and a text that is all whitespace as empty. It is accepted exactly when it is present and not all whitespace, and then the result is the stripped text: non-empty, with no whitespace at either end. |
| `Reviews.CheckFilter` | app.py:104-112 | An absent or empty filter means no filter. A non-empty value other than the three names is refused. Each of the three names selects exactly the label it names. |
| `Reviews.Selected` | app.py:117 | `WHERE sentiment = ?`: a row passes exactly when there is no filter or the row carries the filter's label. |
| `Reviews.Where` | app.py:114-119 | It keeps exactly the rows that pass the filter, and all rows when there is none. |
| `Reviews.WhereAppend` | app.py:114-119 | Adding a row changes the filtered rows by exactly that row, when it passes the filter, and by nothing otherwise. |
| `Reviews.InsertByTime` | app.py:118 | Inserting a row into a newest-first list keeps it newest first, and adds exactly that row. |
| `Reviews.OrderByNewest` | app.py:114-125 | `ORDER BY created_at DESC` returns the same rows, as a permutation, newest first. |
| `Reviews.SameNewest` | app.py:114-125 | With distinct timestamps, any two newest-first orders of the same rows start with the same row. |
| `Reviews.NewestFirstUnique` | app.py:114-125 | With distinct timestamps, the newest-first order of a set of rows is unique. |
| `Reviews.ListedInReverseCreationOrder` | app.py:114-125 | Take three rows with times t1 < t2 < t3. Every newest-first permutation of them, and so every `List` result holding them, is exactly [t3, t2, t1]. |
| `Reviews.CreatedRowIsListed` | app.py:81-87 | A row added to the table is in the unfiltered listing and in the listing under its own label. |
| `Reviews.IdsIncreasingAppend` | app.py:40 | Appending a row whose id exceeds every stored id keeps the ids strictly increasing in insertion order, as AUTOINCREMENT does. |
| `Reviews.AppendKeepsValid` | app.py:39-43 | Appending a row that has the counter's value as its id, a stripped non-empty text and the label `Analyze` gives that text keeps the table invariant, with the counter advanced by one. The invariant says ids lie between 1 and the counter and increase, and every stored text is stripped, non-empty and correctly labelled. |
| `Reviews.Store.constructor` | app.py:38-45 | A fresh table is empty, valid, and hands out id 1 first. |
| `Reviews.Store.Create` | app.py:64-95 | Missing or blank text is refused, and the table is unchanged. Otherwise exactly one row is appended. It holds the stripped text, the label `Analyze` gives that text, and the passed timestamp. Its id is the counter's value, above every existing id, and the counter advances by one. The row is returned. The table invariant is kept: ids increase with insertion, and every stored text is non-empty, has no whitespace at either end and carries the label `Analyze` gives it. |
| `Reviews.Store.List` | app.py:101-138 | It is refused exactly when the filter is refused. Otherwise it returns a permutation of the rows that pass the filter: exactly those rows, newest first. |

The client methods `Reviews.BlankReviewsAreRefused`, `Reviews.CreateThenListAll`, `Reviews.CreateThenListByLabel` and `Reviews.CreateThreeThenListAll` use only the contracts above. They show four things:

- Any all-whitespace text, and a missing text, are refused and store nothing. The filter `bogus` is refused.
- A text that is not all whitespace is accepted, and the created review is in the unfiltered listing.
- The created review is also listed under its own label, and that listing holds only rows with that label.
- Three reviews created at increasing times, on a fresh table, are listed exactly as [third, second, first].

## Left out

- HTTP routing, `request.get_json`, `jsonify`, status codes and the Russian error messages are framework I/O. Errors are modelled only as the validation kinds `MissingText`, `EmptyText` and `InvalidSentiment`, each of which the service answers with 400.
- SQLite connections, `PRAGMA encoding` and `init_db` (`CREATE TABLE IF NOT EXISTS`) are foreign database calls. The table is an in-memory `seq` with a next-id counter, and the constructor stands for a fresh table. So the idempotence of schema initialisation and durability across restarts are not modelled.
- `datetime.now(timezone.utc).isoformat()` is a clock read. The timestamp is a parameter of `Create`.
- The catch-all `except Exception` paths (500) are not modelled. Neither is the crash on a non-string `text` (`.strip()` on a number), nor storage failures in general.
- The connection left open on the early 400 return of `get_reviews` is resource handling, not logic.
- The order among rows with equal `created_at`, which SQLite leaves unspecified, is not modelled. `OrderByNewest` fixes one order and the contracts of `List` do not promise it. With distinct timestamps the order is unique (`NewestFirstUnique`).
- Python's full Unicode case mapping is not modelled. `Strings.LowerChar` folds only A–Z and U+0400–U+042F. Other letters (Latin-1, Greek, …) are left unchanged, as are the special cases where lower-casing changes the length.
- `app.run` and the `/health` endpoint are trivial and are not modelled.
- No concrete example review is proved `negative` or `neutral`. Each would need a non-occurrence proof for all 34 positive stems. Concrete positive example reviews are proved: `MixedReviewIsPositive`, `PositiveBeatsNegative` and `PoorQualityReviewIsPositive`.
