# London neighbourhood recommender: a Dafny model of its core

The dashboard recommends London neighbourhoods from a table of properties.
The user picks a budget, room counts, a property type, a tenure, school
ratings and crime levels in a sidebar, and the table is filtered by those
choices. When the user also enters a work address, the dashboard asks the
Distance Matrix API how long the commute is from every location of the
table, in several travel modes. It keeps the quickest mode whose travel
time it can read and merges that record onto the table. The found rows can
be sorted by median price.

This project models that core and proves properties of the model:

- `extract_minutes`, which reads a travel-time text such as "1 hour 5 mins"
  as minutes, is in `duration.dfy`. The Python string builtins it uses
  (`lower`, `replace`, `in`, `split`, `strip`, `int`) are in `pystr.dfy`.
- The two Distance Matrix helpers of `api_commute.py` are in `commute.dfy`.
  The HTTP call is a function parameter `respond(origin, destination, mode)`.
  It returns either the decoded body or the exception that was raised. A
  JSON key that may be missing is a `Field`.
- The two Geocoding helpers of `api_geocode.py` are in `geocode.dfy`,
  written over the decoded reply.
- The sidebar filters and the price sort are in `filters.dfy`.
- The commute enrichment of the table is in `enrichment.dfy`. The commute
  cache is a class `CommuteCache` with the cache dict as a `map` field and
  a count of the fetches it has made. `Enrich` is its loop over the
  distinct locations. The left merge and the best-mode choice are
  functions.
- A Python `dict` is an association list (`dicts.dfy`). Insertion order
  matters here: `min(d, key=...)` walks the keys in that order, so it
  decides which of two equally fast modes wins. `common.dfy` holds `Option`
  and `Result`, the exception kinds, Python's `min` as the first minimal
  index, and the filtering of a list by a mask.

An exception that escapes a function is an `Err` carrying its kind
(`KeyError`, `IndexError` or another class). A `try` in the source that
swallows an exception becomes a branch that goes on with the loop.

## Model

| member | source | states |
|---|---|---|
| Duration.ExtractMinutes | streamlit_app.py:91-98 | A value that is not text gives `None`: `s.lower()` raises and the bare `except` answers `None`. |
| Duration.MinutesRoundTrip | streamlit_app.py:97 | "<n> mins" is read back as n minutes, for every n. |
| Duration.HoursRoundTrip | streamlit_app.py:94-96 | "<h> hour <m> mins" is read back as 60·h + m, for every h and m. |
| Duration.HrRoundTrip | streamlit_app.py:93-96 | "<h> hr <m> mins" is first rewritten to "hour" and then read back as 60·h + m. |
| Duration.PluralHoursRejected | streamlit_app.py:93-96 | "<h> hours <m> mins" gives `None`: the split at "hour" leaves "s <m> mins" as the minutes piece, and `int` refuses it. |
| Duration.TwoHoursFiveMinsRejected | streamlit_app.py:93-96 | "2 hours 5 mins" gives `None`. |
| Duration.HourWithoutMinutesRejected | streamlit_app.py:94-96 | "<h> hour" gives `None`, because `int("")` raises. |
| Duration.SingularMinRejected | streamlit_app.py:97 | "<n> min" gives `None`: "mins" does not occur, so `int` sees the word "min". |
| Duration.RepeatedHourRejected | streamlit_app.py:94-95 | Text that splits at "hour" into three or more pieces gives `None`, because the two-name unpacking raises. |
| Duration.EmptyRejected | streamlit_app.py:97 | The empty string gives `None`. |
| Duration.CaseInsensitive | streamlit_app.py:93 | Lower-casing the input first changes nothing. |
| PyStr.LowerIdempotent | streamlit_app.py:93 | `lower()` leaves no upper-case letter, and lowering twice is lowering once. |
| PyStr.ReplaceAbsent | streamlit_app.py:93 | `replace` with a pattern that does not occur returns the text unchanged. |
| PyStr.ReplaceSkip | streamlit_app.py:93 | A prefix without the pattern's first character passes through `replace` untouched. |
| PyStr.SplitJoin | streamlit_app.py:95 | `sep.join(s.split(sep)) == s`: the split loses nothing. |
| PyStr.SplitPiecesContains | streamlit_app.py:94-95 | `s.split(sep)` has two or more pieces exactly when `sep in s`. |
| PyStr.SplitSkip | streamlit_app.py:95 | A prefix without the separator's first character stays in the first piece. |
| PyStr.StripPadded | streamlit_app.py:96-97 | `strip()` removes the whitespace padding on both sides and nothing else. |
| PyStr.StripLeft | streamlit_app.py:96-97 | The part removed on the left is whitespace, and what remains starts with a non-space character when not empty. |
| PyStr.StripRight | streamlit_app.py:96-97 | The same on the right. |
| PyStr.Decimal | streamlit_app.py:96-97 | The text `str(n)` writes is non-empty, all digits, and has no leading zero. |
| PyStr.DecimalValue | streamlit_app.py:96-97 | The digits of `str(n)` denote n. |
| PyStr.ParseDecimal | streamlit_app.py:96-97 | `int()` of "<padding><digits of n><padding>" is n. |
| PyStr.ParseRejects | streamlit_app.py:96-97 | `int()` raises on stripped text holding a character that is neither a digit nor a leading sign. |
| PyStr.SplitWhitespaceEmpty | api_geocode.py:67 | `split()` gives no words exactly when the text is all whitespace. |
| PyStr.FirstWord | api_geocode.py:67 | The first word of "<w><space><rest>" is w, for a non-empty w without whitespace. |
| PyStr.FirstWordShape | api_geocode.py:67 | The first word of `split()` is non-empty and holds no whitespace. |
| Dicts.Get | api_commute.py:65 | `d.get(k)` is `None` exactly when k is not a key; otherwise it is the value of an entry with key k. |
| Dicts.PutGet | api_commute.py:59 | After `d[k] = v`, `d.get(k)` is v and every other key reads as before. |
| Dicts.PutKeeps | api_commute.py:102 | Assigning an existing key keeps the order of the keys. |
| Dicts.PutDistinct | api_commute.py:102 | A dict never holds a key twice after an assignment. |
| Dicts.Put | api_commute.py:102 | A new key goes to the end. The length grows by at most one. |
| Common.ArgMinFirst | api_commute.py:65 | `min(..., key=...)` returns a position whose value is minimal, and every earlier position holds a strictly larger value (ties go to the first). |
| Common.FilterByEmpty | streamlit_app.py:112 | A comprehension with an `if` is empty exactly when no element passes. |
| Common.FilterByFirstMin | streamlit_app.py:112-114 | The first minimum of the filtered values is a kept element, minimal among the kept elements and strictly below every kept element before it. |
| Commute.FirstElement | api_commute.py:56 | `data["rows"][0]["elements"][0]` is the first element when both lists exist and are non-empty; otherwise it raises `KeyError` or `IndexError`. |
| Commute.ElementOutcome | api_commute.py:55-58 | The `duration` object is recorded exactly when both statuses are "OK" and the key is present. A skipped mode is one whose statuses were not both "OK". |
| Commute.SecondsOutcome | api_commute.py:55-59 | The best-mode loop records `duration["value"]` exactly when the element's duration holds a value. It skips exactly the responses the element step skips. |
| Commute.TextOutcome | api_commute.py:96-102 | The all-modes loop records `duration["text"]` only when `duration["value"]` is also there, because it reads the value first. |
| Commute.TextImpliesSeconds | api_commute.py:55-59 | A response the all-modes loop records is one the best-mode loop records too. The two skip the same responses. |
| Commute.TextsForKeys | api_commute.py:101-102 | Every key of the result is the label of a mode whose response was recorded, and no key appears twice. |
| Commute.TextsForGet | api_commute.py:93-104 | With distinct labels, each mode's entry is its own response's text, or missing when that response was not recorded. A failure on one mode does not affect another mode's entry. |
| Commute.TextsForAllFailed | api_commute.py:103-104 | When every request raises, the result is an empty dict. |
| Commute.GetCommuteTimesAllModes | api_commute.py:79-106 | The loop returns the specified dict. For each of the four modes, the entry under its label is its response's text when that response holds one, and missing otherwise. Every key is one of the four labels, and no key is repeated. |
| Commute.SecondsForErr | api_commute.py:52-61 | The best-mode loop raises exactly when some response fails with an exception other than `KeyError` or `IndexError`. The exception raised is the first such one. |
| Commute.SecondsForFiltered | api_commute.py:39-61 | With distinct modes and no escaping exception, `results` holds the recorded (mode, seconds) pairs in loop order. |
| Commute.BestOfNone | api_commute.py:64-75 | The loop ends with no results exactly when no mode was recorded and no exception escaped. |
| Commute.BestOfMinimal | api_commute.py:64-65 | The chosen entry is a recorded mode with minimal seconds, and every recorded mode before it is strictly slower. |
| Commute.BestNone | api_commute.py:64-75 | `(None, None)` is returned exactly when no mode succeeded and no uncaught exception ended the loop. |
| Commute.BestMinimal | api_commute.py:64-71 | The returned mode is a succeeded mode with minimal seconds. Ties go to the earliest in `modes`, and "transit" is relabelled only after the choice. |
| Commute.EscapesRaised | api_commute.py:52-61 | Only an exception of another class raised by the request or by the decoding escapes. A missing key or an empty list in the body is always caught as `KeyError` or `IndexError`. |
| Commute.BestErr | api_commute.py:52-61 | The call raises exactly when some mode's response fails with an exception other than `KeyError` or `IndexError`. |
| Commute.SecondsForPrefixErr | api_commute.py:52-61 | Once the loop has raised, the later modes do not change the outcome. |
| Commute.GetBestCommuteTime | api_commute.py:34-75 | The loop returns what `BestCommute` specifies: the best mode and its seconds, `None`, or the escaping exception. |
| Geocode.FirstNamed | api_geocode.py:26-27 | `next(...)` is `None` exactly when no component has a wanted type. Otherwise it is the `long_name` of the first component that has one. |
| Geocode.FirstResult | api_geocode.py:19-20 | A status other than "OK" gives no result. An "OK" status with a non-empty `results` gives its first entry. |
| Geocode.GeocodeAddress | api_geocode.py:9-39 | A non-"OK" status gives `None`. An "OK" reply with a non-empty `results` always gives the dict built from the first result: its coordinates, its first postal code, its first postal town or neighborhood, and its formatted address. A value comes out only in that case. An "OK" reply with an empty `results` raises `IndexError`. |
| Geocode.Outcode | api_geocode.py:67 | A missing or empty postcode gives `None`. A blank one raises `IndexError`. Any other postcode gives a non-empty first word without whitespace. |
| Geocode.OutcodeOfPostcode | api_geocode.py:67 | "<outward> <inward>" gives the outward code. |
| Geocode.OutcodeWords | api_geocode.py:67 | A postcode with a word in it gives its first word. |
| Geocode.ReverseGeocode | api_geocode.py:42-72 | An "OK" reply with a non-empty `results` gives the outcode of the first result's first postal code when that result is in the United Kingdom and in Greater London, and `None` otherwise. An outcode comes out only in that case. A non-"OK" status gives `None`. |
| Geocode.OutsideLondonRejected | api_geocode.py:61-63 | A first result outside Greater London gives `None`. |
| Geocode.FirstResultOnly | api_geocode.py:19-57 | Two replies that agree on the status and on the first result give the same answers from both helpers. |
| Geocode.LondonWithoutPostcode | api_geocode.py:66-67 | A Greater London result without a postal code gives `None`. |
| Geocode.LondonBlankPostcode | api_geocode.py:66-67 | A Greater London result whose first postal code is blank raises `IndexError`. |
| Geocode.LondonPostcodeAccepted | api_geocode.py:53-68 | A Greater London first result whose postal code is "<outward> <inward>" gives that outward code. |
| Filters.Keep | streamlit_app.py:72-86 | A mask keeps each row as often as the table holds it when the row passes, and drops it otherwise. |
| Filters.KeepConcat | streamlit_app.py:72-86 | Masking commutes with concatenation, so the table order is kept. |
| Filters.FilteredCount | streamlit_app.py:72-86 | A row is in the result as often as it is in the table when it passes both masks, and not at all otherwise. |
| Filters.FilteredMembers | streamlit_app.py:72-86 | A row is found exactly when it is in the table and matches the budget, the five equalities, the crime level and the school rule. |
| Filters.InvertedBudgetEmpty | streamlit_app.py:58-80 | A minimum above the maximum leaves no row: the error is shown and nothing matches. |
| Filters.DefaultSchoolKeepsAll | streamlit_app.py:67-85 | With the default three school options, every row with non-negative school counts passes the school mask. |
| Filters.NoInfoOnly | streamlit_app.py:81-85 | With only "No info" chosen, exactly the rows with no good and no outstanding school pass. |
| Filters.Insert | streamlit_app.py:126 | One insertion step adds exactly one copy of the row. |
| Filters.InsertOrdered | streamlit_app.py:126 | Inserting into an ordered list keeps it ordered. |
| Filters.SortByPrice | streamlit_app.py:126-128 | `sort_values("median_price")` is ordered by price in the requested direction and is a permutation of the rows. |
| Filters.ApplySort | streamlit_app.py:124-128 | The two price options sort ascending and descending. Any other option leaves the rows as they are. All three give a permutation. |
| Filters.SortedEnds | streamlit_app.py:126-128 | Ascending, the first row is a cheapest one; descending, it is a dearest one. |
| Enrichment.DropDuplicates | streamlit_app.py:103 | `drop_duplicates()` keeps exactly the locations of the table, each once. |
| Enrichment.DropDuplicatesDistinct | streamlit_app.py:103 | A table without repeated locations is walked as it is. |
| Enrichment.BestRecord | streamlit_app.py:112-115 | A record's minutes are what `extract_minutes` reads from its text, and its area and outcode are the location's. |
| Enrichment.BestRecordNone | streamlit_app.py:112-113 | No record is made exactly when no mode's text reads as minutes. |
| Enrichment.ValidMin | streamlit_app.py:112-114 | The first minimum of the valid minutes is a valid entry, minimal over the valid entries and strictly below every valid entry before it. |
| Enrichment.BestRecordMinimal | streamlit_app.py:114-115 | The chosen mode is a valid entry with minimal minutes, and every valid entry before it takes strictly longer. |
| Enrichment.PassKeepsEntries | streamlit_app.py:106-110 | The pass never removes a cache entry or changes a non-empty one, and it fetches at most once per location. |
| Enrichment.AllHitsNoFetch | streamlit_app.py:107-108 | When every key is already a non-empty cache entry, nothing is fetched and the cache is unchanged. |
| Enrichment.SharedOriginFetchedOnce | streamlit_app.py:106-110 | Locations that share one origin and miss at first cost one fetch when the answer is non-empty. The answer is then cached under the key. |
| Enrichment.EmptyAnswerRetried | streamlit_app.py:108-110 | An empty answer is not stored, so every location with that origin fetches again, and the cache is unchanged. |
| Enrichment.PassRecords | streamlit_app.py:112-115 | `commute_data` grows only by records whose area and outcode come from a walked location and whose minutes are what `extract_minutes` reads from their text. |
| Enrichment.Matches | streamlit_app.py:116 | The records joined to a row are exactly those with its area name and outcode. |
| Enrichment.JoinRow | streamlit_app.py:116 | Each table row yields at least one merged row, and every merged row carries that table row. |
| Enrichment.UniqueMatch | streamlit_app.py:116 | With unique keys, at most one record matches a row. |
| Enrichment.MatchesDistinct | streamlit_app.py:116 | With unique keys, the matched records are pairwise distinct. |
| Enrichment.LeftMergeKeepsRows | streamlit_app.py:116 | The left merge keeps every row of the table and is at least as long as the table. |
| Enrichment.LeftMergeOnlyRows | streamlit_app.py:116 | Every merged row carries a row of the table. |
| Enrichment.LeftMergeUnique | streamlit_app.py:116 | With unique keys, the merge has one row per table row, in order. A row carries a record exactly when a record with its key exists, and then that record. |
| Enrichment.CommuteCache.constructor | streamlit_app.py:18-23 | The cache starts as loaded, with no fetches made. |
| Enrichment.CommuteCache.Lookup | streamlit_app.py:106-110 | A non-empty cached entry is used without fetching. Otherwise all modes are fetched once, and the answer is stored only when it is not empty. |
| Enrichment.CommuteCache.Enrich | streamlit_app.py:100-116 | With no work address, the table and the cache are unchanged. Otherwise the cache and the fetch count are those of the specified pass over the distinct locations, and the result is the left merge of the records onto the table. |

## Left out

- Reading the commute cache file (streamlit_app.py:18-23) and writing it back (streamlit_app.py:117) are not modelled; the cache is a value handed to the constructor, whose entries must each hold distinct mode names, as a dict loaded from JSON does.
- The HTTP requests, the API key, `requests`/`json` decoding and `dotenv` are outside the model. The reply is a parameter: a decoded body, or the kind of exception one of those calls raised.
- `time.sleep(0.5)` between fetches and the spinner are not modelled: they have no effect on the values.
- The `print` calls on failure (api_commute.py:104, api_geocode.py:38, api_geocode.py:71) are output only and are left out.
- The origin text `f"{lat:.4f}, {lng:.4f}"` (streamlit_app.py:105) is a function parameter, because float formatting is not modelled.
- Commute.GetBestCommuteTime: returns the minimum in integer seconds rather than the text `f"{round(secs / 60, 1)} mins"` (api_commute.py:66-71), because floating-point rounding and formatting are not modelled. The choice of mode is unaffected.
- Commute.Best: the same: seconds, not the rounded display text.
- Enrichment.CommuteCache.Enrich: the `.strip().lower()` applied to the work address at streamlit_app.py:90 is the caller's business. The method takes the normalised address, and only the empty string counts as no address.
- Enrichment.CommuteCache.Enrich: the left merge is modelled as a join over the records. pandas raises a `KeyError` when `commute_data` is empty, because the empty frame has no "area name" column; that error is not modelled.
- The commute filter (streamlit_app.py:119-120) is not modelled, and nothing is claimed about it.
- Filters.SortByPrice: pandas' `sort_values` defaults to quicksort, which is not stable. The model sorts stably and states only the order and the permutation, which any stable or unstable sort meets; the order of equally priced rows is not claimed.
- Filters.Keep: rows and selections are exact values; NaN and mixed-type columns are outside the model.
- PyStr: `lower()` is modelled on ASCII letters only. `int()` is modelled as accepting surrounding whitespace, an optional sign and ASCII digits; underscores and non-ASCII digits are left out.
- PyStr.ParseDecimal: the model's `int()` skips the same whitespace as `str.strip()`. CPython's `int()` does not skip the ASCII separators U+001C to U+001F, so the lemma overstates for padding made of those. `extract_minutes` strips the text before every `int()` call, so its results are unaffected.
- Enrichment.CommuteCache.Enrich: cache entries whose values are not strings (possible in a hand-edited cache file) are not modelled; the cache holds text only. `ExtractMinutes` answers `None` for a non-text value, but `Enrich` never passes one.
- Enrichment.CommuteCache.Enrich: the HTTP layer is one fixed function, so a request repeated within a pass gets the same reply. The real API may answer a repeated request differently, for instance after an empty answer is fetched again (streamlit_app.py:107-110), and that later answer would then be stored. `EmptyAnswerRetried` (the cache stays unchanged) and `Enrich`'s equality with the pass both rest on this.
- Enrichment.EmptyAnswerRetried: its "cache unchanged" and "one fetch per location" hold only under that fixed-reply assumption.
- Geocode: a first result lacking `geometry`, `formatted_address`, `address_components`, `long_name` or `types` (which would raise `KeyError`) is not modelled; those keys are taken as present. A missing `status` or `results` is modelled.
- JSON values of the wrong type (a status that is a number, a list where an object is expected) are not modelled.
- api_places.py is not part of this model; nothing in the core calls it.
- The Streamlit page layout, maps and widgets are outside the model.
