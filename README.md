# Movie recommender front end: data loader and selection rules

This project models the part of the movie-rating demo that does real work:

- **The loader in `data.js`.** It reads the two MovieTweetings dumps, whose lines hold `::`-separated fields.
  - `parseItemData` turns `movies.dat` lines (`id::Title (Year)::Genres`) into movies. It splits the year off the title and records the number of movies in `numMovies`.
  - `parseRatingData` turns `ratings.dat` lines (`userId::movieId::rating::timestamp`) into ratings. It records `numUsers`, the largest user id plus one.
- **The selection rules in `script.js`.** These are the rules behind the two dropdowns and the request check, with the page stripped away:
  - the user list: distinct user ids, ascending, the first 100;
  - the per-movie rating counts;
  - the movie list: movies with more than 10 ratings, by rating count, largest first, the first 200;
  - the check that a prediction request names both a user and a movie.

The JavaScript built-ins these rely on are written out in their ECMAScript meaning:
- `trim`, `indexOf` and `split` with a string separator;
- `parseInt` without a radix: leading white space, a sign, a `0x` prefix, then the leading digits, with NaN when there are none;
- `String(n)`;
- the first match of `/(\d{4})/`;
- `Math.max`, in which NaN absorbs every argument and no arguments give negative infinity;
- `Array.prototype.sort` with the two comparators, one numeric ascending and one stable by count.

The modules follow the program:

| file | module | content |
|---|---|---|
| `js_values.dfy` | `JsValues` | `Option` (where `None` is NaN), `Result`, and the numbers `Math.max(...) + 1` can produce |
| `js_text.dfy` | `JsText` | `trim`, `indexOf`, `split`/`join`, `parseInt`, `String(n)`, the four-digit search |
| `sorting.dfy` | `Sorting` | the ascending sort and the stable sort by key, largest first |
| `data.dfy` | `MovieData` | the line parsers and the `DataStore` class, which holds `numUsers` and `numMovies` and whose two methods are the parsers' loops |
| `selection.dfy` | `Selection` | the user list, the rating-count loop, the movie list and the request check |

The loader keeps the source's imperative form. The two parsers are methods of a class whose fields are the two global counters. Each runs a loop over the lines and is proved equal to a specification function, `Collect` of the per-line parser. The rating parser's `Math.max` over the user-id set is a loop too. The rating-count `forEach` is a loop that updates a map. The rest of the script's rules are `filter`/`sort`/`slice` chains, and they are functions with lemmas.

The model keeps three behaviours of the code at the edges of its input:
- An empty rating text gives no ratings, and `numUsers` becomes negative infinity, since `Math.max()` of no arguments is negative infinity (data.js:96).
- A line whose id fields are not numerals is kept, with NaN ids (data.js:80-88).
- Fields are separated by `::` and by nothing else (data.js:39, 78).

## Model

| member | source | states |
|---|---|---|
| JsValues.Falsy | script.js:58 | no contract of its own: `!id` for a parsed id, true for NaN and zero; `Selection.CheckRequest` states what it decides |
| JsValues.PlusOne | data.js:96 | adding one keeps NaN and negative infinity and adds one to a finite value |
| JsValues.MaxStep | data.js:96 | one `Math.max` step gives NaN exactly when either side is NaN; otherwise it gives a finite value that is at least both and equal to one of them |
| JsText.TrimStart | data.js:38 | the result is a suffix; every character removed is white space; the result does not start with white space |
| JsText.TrimEnd | data.js:38 | the result is a prefix; every character removed is white space; the result does not end with white space |
| JsText.Trim | data.js:38 | no contract of its own: `trim()` as `trimEnd` of `trimStart`; `JsText.TrimStart` and `JsText.TrimEnd` state what each half removes |
| JsText.IsBlank | data.js:77 | no contract of its own: `line.trim()` is falsy (data.js:38 and 77); `JsText.BlankIffAllWhiteSpace` states its meaning |
| JsText.BlankIffAllWhiteSpace | data.js:38 | `line.trim()` is empty exactly when every character of the line is white space |
| JsText.IndexOfFrom | data.js:39 | the result is an occurrence of the separator at or after the start position, and the first one; `None` when there is none |
| JsText.Split | data.js:39 | `split` always yields at least one field |
| JsText.SplitFirstField | data.js:42 | the first field is the text before the first separator (or all of it); there is a second field exactly when the separator occurs; the later fields are the split of the text after it |
| JsText.SplitJoin | data.js:39 | joining the fields with the separator gives back the text |
| JsText.SplitAtFirstOccurrences | data.js:39 | every field but the last ends at the first occurrence of the separator after it starts; the last field holds none |
| JsText.FieldsCons | data.js:39 | a field that ends at the first separator, put before fields with that property, keeps the property |
| JsText.IndexOfAppendedPair | data.js:39 | appending a two-character separator to text without it puts its first occurrence at the join, unless the text's last character and the separator's first form the separator |
| JsText.SplitUnique | data.js:39 | fields that each end at the first separator after them, with a last field holding none, and whose join is the text, are exactly the text's split |
| JsText.SplitAfterFirst | data.js:39 | text that runs up to the first separator splits off as the first field, ahead of the split of the remainder |
| JsText.DigitValue | data.js:41 | a character's digit value is at most 36, and is below 10 exactly for the decimal digits |
| JsText.LeadingDigits | data.js:41 | the digits `parseInt` reads are a prefix, all digits of the radix, and followed by a non-digit or the end |
| JsText.ParseInt | data.js:80-81 | no contract of its own: `parseInt` without a radix; `JsText.ParseIntOfString`, `JsText.ParseIntOfDigits`, `JsText.ParseIntBlank` and `Selection.ParseOptionValue` state its meaning |
| JsText.ParseSigned | data.js:41 | no contract of its own: the optional sign after the white space; `JsText.ParseIntOfString` states it for negative numerals |
| JsText.ParseNumeral | data.js:41 | no contract of its own: the `0x` prefix and the digit run; `JsText.ParseNumeralOfDigits` and `JsText.LeadingDigits` state its meaning |
| JsText.ParseIntBlank | script.js:55 | `parseInt` of white space alone, such as the empty placeholder value, is NaN |
| JsText.NatToString | script.js:125 | `String(n)` of a natural number is a nonempty run of decimal digits |
| JsText.NatToStringValue | script.js:125 | the digits of `String(n)` denote `n` |
| JsText.NatToStringNoLeadingZero | script.js:125 | `String(n)` starts with zero only when it is `"0"` |
| JsText.NatToStringFourDigits | data.js:49 | the numeral of a year from 1000 to 9999 has four digits |
| JsText.IntToString | script.js:151 | no contract of its own: `String(n)`, the option value the dropdowns write; `JsText.ParseIntOfString` states that `parseInt` inverts it |
| JsText.ParseIntOfString | data.js:41 | `parseInt` reads back any integer written by `String(n)`, after leading white space and before text that does not continue the numeral |
| JsText.ParseIntOfDigits | data.js:80-81 | `parseInt` reads any run of decimal digits, leading zeros included, as its decimal value, after white space and before text that does not continue it (a non-digit, and not `x` or `X` after a lone `0`) |
| JsText.ParseNumeralOfDigits | data.js:41 | past the sign, a run of decimal digits followed by a non-digit reads in radix 10 as its value (a lone `0` before `x` or `X` excepted, since that starts the hexadecimal prefix) |
| JsText.FirstFourDigitNumber | data.js:49-51 | no contract of its own: `parseInt` of the first match of `/(\d{4})/`, or null; `JsText.FindFourDigits` and `MovieData.YearOfNumeral` state its meaning |
| JsText.FindFourDigits | data.js:49 | the match position starts four decimal digits, and no earlier position does; `None` when there is no such run |
| MovieData.MovieOfLine | data.js:37-60 | no contract of its own: the per-line body of `parseItemData`; `MovieData.MovieLineAccepted`, `MovieData.TitleAndYear`, `MovieData.MovieLineRoundTrip` and `MovieData.MovieDumpLine` state its meaning |
| MovieData.MovieOfFields | data.js:41-59 | no contract of its own: the record built from the first two fields; `MovieData.TitleAndYear` states its meaning |
| MovieData.RatingOfLine | data.js:77-88 | no contract of its own: the per-line body of `parseRatingData`; `MovieData.RatingLineAccepted`, `MovieData.RatingLineRoundTrip` and `MovieData.RatingDumpLine` state its meaning |
| MovieData.BlankLineSkipped | data.js:37-38 | a line of white space alone yields neither a movie nor a rating |
| MovieData.RatingLineAccepted | data.js:77-88 | a rating line yields a record exactly when it has a non-white-space character and at least three `::` fields; the record's ids and rating come from fields 0, 1 and 2 |
| MovieData.MovieLineAccepted | data.js:38-40 | a movie line yields a record exactly when it has a non-white-space character and at least two `::` fields |
| MovieData.TitleAndYear | data.js:42-53 | the title is field 1 up to its first `" ("` (or all of it); the year is the first four-digit run between that `" ("` and the next, and null without a `" ("` |
| MovieData.MovieLineRoundTrip | data.js:39-59 | a line `id::Title (Year)::Genres`, whose title holds no `::` and no ` (` and whose year has four digits, reads back as that id, title and year |
| MovieData.MovieLineOfIdField | data.js:39-59 | a line `idField::Title (Year)::Genres` with no `:` in the id field, a title without `::` and ` (`, and a four-digit year, reads back as `parseInt(idField)`, that title and that year |
| MovieData.MovieDumpLine | data.js:39-59 | a dump line whose id is a run of decimal digits, leading zeros included (`0114508::Title (Year)::Genres`), with a title holding no `::` and no ` (` and a four-digit year, reads back as the digits' value, that title and that year |
| MovieData.NameHasNoSeparator | data.js:39 | a title without `::`, followed by ` (Year)`, still holds no `::` and ends with `)` |
| MovieData.YearOfNumeral | data.js:49-51 | the year segment of a four-digit year closed by `)` yields that year |
| MovieData.RatingLineRoundTrip | data.js:78-88 | a line `userId::movieId::rating`, followed or not by a timestamp field, whose rating text holds no `:`, reads back as that rating; the extra fields are ignored |
| MovieData.RatingDumpLine | data.js:78-88 | a dump line whose ids are runs of decimal digits, leading zeros included (`14::0114508::8::1381006850`), whose rating text holds no `:`, reads back as the digits' values and that rating text |
| MovieData.MovieLineOfFields | data.js:39-43 | a line whose first two fields each end at the first `::` after them yields the movie of those two fields |
| MovieData.RatingLineOfFields | data.js:78-82 | a line whose first two fields hold no `:` yields the rating of those fields and of the first field of the rest |
| MovieData.NotBlankWithColon | data.js:77 | a line with a `:` in it passes the `line.trim()` test, whatever its first field holds |
| MovieData.Collect | data.js:76-93 | no contract of its own: the records of the lines that yield one, in line order; `MovieData.CollectByLine`, `MovieData.Accepted` and `MovieData.CollectNext` state its meaning, and both parser loops are proved equal to it |
| MovieData.Accepted | data.js:76-79 | the accepted line positions are increasing, each yields a record, and every line that yields one is among them |
| MovieData.CollectByLine | data.js:76-88 | one record per accepted line, in line order: the k-th record is the k-th accepted line's |
| MovieData.CollectConcat | data.js:37-62 | parsing two runs of lines one after the other concatenates their records |
| MovieData.CollectNext | data.js:37-62 | the records of one more line are the earlier records, then that line's record, if any |
| MovieData.FirstLine | data.js:35 | the records of a text are its first line's record, then the records of the text after the first line break |
| MovieData.UserIdsAppend | data.js:90 | adding a rating adds its user id to the user-id set |
| MovieData.IsUserTableSize | data.js:96 | no contract of its own: the value `Math.max(...userSet) + 1` must have; `MovieData.UserTableSizeUnique` states that it determines one value, and `MovieData.UserTableSizeOfMax` what that value is |
| MovieData.UserTableSizeUnique | data.js:96 | the user table size is determined by the ratings |
| MovieData.MathMax | data.js:96 | `Math.max` over the user-id set: negative infinity for no ids, NaN when one id is NaN, otherwise the largest id, whatever the visiting order |
| MovieData.UserTableSizeOfMax | data.js:96 | the largest id plus one is the table size: every user id is below it and one id is just below it |
| MovieData.DataStore.constructor | data.js:4-5 | both counters start at zero |
| MovieData.DataStore.ParseItemData | data.js:33-69 | the loop returns the movies of the accepted lines in line order, and `numMovies` becomes their number |
| MovieData.DataStore.ParseRatingData | data.js:71-100 | the loop returns the ratings of the accepted lines in line order; `numUsers` becomes the user table size: negative infinity for no ratings, NaN when a user id is NaN, otherwise above every user id with one id just below it |
| Sorting.InsertPermutes | script.js:121 | insertion adds exactly the inserted value |
| Sorting.InsertOrdered | script.js:121 | insertion keeps a list ascending, and strictly ascending when the value is new |
| Sorting.SortAscending | script.js:121 | no contract of its own: `sort((a, b) => a - b)` as insertion sort; `Sorting.SortAscendingCorrect` and `Sorting.AscendingPermutationUnique` state its meaning |
| Sorting.SortAscendingCorrect | script.js:121 | the sort with `(a, b) => a - b` yields an ascending permutation, strictly ascending when no value repeats |
| Sorting.AscendingPermutationUnique | script.js:121 | two ascending permutations of the same values are equal, so every correct engine sort gives the same list |
| Sorting.InsertByPermutes | script.js:146 | insertion by key adds exactly the inserted element |
| Sorting.InsertByOrdered | script.js:146 | insertion by key keeps the list ordered by key, largest first |
| Sorting.InsertByKeyClass | script.js:146 | insertion by key places the element after the others that share its key |
| Sorting.StableSortBy | script.js:146 | no contract of its own: the stable sort by key, largest first; `Sorting.StableSortByCorrect` and `Sorting.StableSortUnique` state its meaning |
| Sorting.StableSortByCorrect | script.js:146 | the sort with `(a, b) => key(b) - key(a)` yields a permutation ordered by key, largest first, in which the elements sharing a key keep their original order |
| Sorting.WithKeyMembers | script.js:146 | the elements with a given key are elements of the list, and have that key |
| Sorting.FirstHasLargestKey | script.js:146 | the first element of a list ordered by key, largest first, has a key no smaller than any element's |
| Sorting.KeyOrderedUnique | script.js:146 | two lists ordered by key, largest first, with the same elements in the same order for every key, are equal |
| Sorting.StableSortUnique | script.js:146 | every list ordered by key, largest first, that keeps each key's elements in their original order is the stable sort, so every correct engine sort gives the same list |
| Sorting.WithKeyConcat | script.js:146 | the elements with a key in a concatenation are those of each part, in order |
| Selection.Take | script.js:121 | `slice(0, n)` yields a prefix of exactly `n` elements, or the whole list when it is shorter |
| Selection.UserIdList | script.js:121 | the mapped list has one id per rating, in order |
| Selection.Distinct | script.js:121 | no contract of its own: `[...new Set(ids)]`, first occurrences in order; `Selection.DistinctCorrect` states its meaning |
| Selection.DistinctCorrect | script.js:121 | `[...new Set(ids)]` holds every id and no other, each once |
| Selection.UniqueUsers | script.js:121 | no contract of its own: the whole chain of line 121; `Selection.UniqueUsersCorrect` states its meaning |
| Selection.UniqueUsersCorrect | script.js:121 | the user list holds ratings' user ids, each once, strictly ascending, at most 100; an id left out is larger than every listed one and is left out only when the list is full |
| Selection.CountWithMovieId | script.js:141 | no contract of its own: the number of ratings naming a movie id; `Selection.CountIsOccurrences` states its meaning, and `Selection.CountRatings` builds the map of these numbers |
| Selection.RatingCountOf | script.js:145 | no contract of its own: `movieRatingCounts[movie.id]`, with a missing key read as no ratings; `Selection.CountRatings` states which ids have an entry |
| Selection.CountRatings | script.js:139-142 | after the loop, each movie id's entry is the number of ratings naming it, and a movie id has an entry exactly when some rating names it |
| Selection.CountIsOccurrences | script.js:139-142 | the count for a movie id is its number of occurrences among the ratings' movie ids, and positive exactly when a rating names it |
| Selection.MovieIdList | script.js:141 | the list has one movie id per rating, in order |
| Selection.Frequent | script.js:145 | no contract of its own: the `filter` of line 145; `Selection.FrequentAboveThreshold`, `Selection.FrequentOccurrences` and `Selection.FrequentKeyClass` state its meaning |
| Selection.FrequentAboveThreshold | script.js:145 | every movie the filter keeps has more than 10 ratings |
| Selection.FrequentOccurrences | script.js:145 | the filter keeps a movie with more than 10 ratings as often as it occurs among the movies, and drops every other movie |
| Selection.FrequentKeyClass | script.js:145 | the kept movies with a given count are, in order, all the movies with that count when it is above 10, and none otherwise |
| Selection.FrequentSubMultiset | script.js:145 | the filter takes nothing that is not among the movies |
| Selection.TakeSubMultiset | script.js:147 | a prefix holds no element more often than the list |
| Selection.WithKeyTake | script.js:147 | the elements of a prefix that share a key are a prefix of those of the whole list |
| Selection.PopularMovies | script.js:144-147 | no contract of its own: the `filter`/`sort`/`slice` chain; `Selection.PopularMoviesCorrect`, `Selection.PopularMoviesStable`, `Selection.PopularMoviesLeftOut` and `Selection.PopularMoviesOfRatings` state its meaning |
| Selection.PopularMoviesCorrect | script.js:144-147 | the movie list holds at most 200 movies drawn from the movies, each with more than 10 ratings, in non-increasing order of rating count |
| Selection.PopularMoviesStable | script.js:146 | the listed movies that share a rating count appear in their order among the movies |
| Selection.TakeLeftOut | script.js:147 | an element that a prefix of a list ordered by key leaves out has a key no larger than any kept element's, and the prefix is full |
| Selection.PopularMoviesLeftOut | script.js:146-147 | a movie with more than 10 ratings that is left out has no more ratings than any listed movie, and the list is then full |
| Selection.PopularMoviesOfRatings | script.js:139-147 | with the counts the loop builds, the movie list holds at most 200 movies drawn from the movies, each named by more than 10 ratings, in non-increasing order of that number; a movie with more than 10 ratings that is left out has no more ratings than any listed one, and the list is then full |
| Selection.CheckRequest | script.js:55-61 | a request is refused with "Please select both a user and a movie." exactly when either parsed id is NaN or zero; otherwise it carries the two parsed ids |
| Selection.OptionValue | script.js:151 | no contract of its own: `option.value = movie.id` (and `userId` at line 125), `String(id)` or `"NaN"`; `Selection.ParseOptionValue` states that `parseInt` reads it back |
| Selection.ParseOptionValue | script.js:55-56 | `parseInt` reads an option's value back as its id, and reads `"NaN"` as NaN |
| Selection.CheckOptionValues | script.js:55-61 | a request made from two dropdown options passes exactly when both ids are numbers other than zero, and then carries those ids |
| Selection.PlaceholderRefused | script.js:55-60 | a request with a placeholder option, whose value is empty, is refused with the "select both" message |

## Left out

- `loadData` and the two dataset URLs (data.js:7-31): network access and asynchronous I/O. The parsers take the downloaded text as a parameter.
- The page itself: `window.onload`, `updateResult`, the `<option>` elements, `innerHTML` and button enabling. The model stops at the lists the dropdowns are filled from and at the outcome of the request check.
- The mock model: `createModel`, `trainModel`, the random rating, explanation and confidence of `predictRating`, the `setTimeout` delay, and `generateMultiplePredictions`. They are built on `Math.random` and have no algorithmic content. No matrix factorization, training or clamping is modelled, because none exists in the code.
- The option label at script.js:153. It reads `movie.releaseDate`, which the parser never sets, so `.slice` throws a `TypeError` for the first listed movie, before `appendChild` (script.js:154): no movie option is ever added. The error escapes to the `catch` of `window.onload` (script.js:24-27), so when the movie list is non-empty the success status and the enabling of the predict button (script.js:19-22) never run. The model stops at the movie list and does not model this failure.
- `parseFloat` of the rating field: the rating is kept as the text of field 2, and no floating-point arithmetic is modelled.
- `console.log` output.
- Numbers are unbounded integers. Rounding of ids beyond 2^53, and `parseInt` of numerals too long for a double, are not modelled.
- JavaScript strings are sequences of UTF-16 code units. Here a character is a Unicode scalar value, so text outside the Basic Multilingual Plane is counted differently.
- `Math.max(...userSet)` with more arguments than an engine accepts in a call (a `RangeError` for very large sets) is not modelled.
- Selection.UserIdList, Selection.UniqueUsers and Selection.UniqueUsersCorrect: require every user id to be numeric. With a NaN id, the comparator `(a, b) => a - b` returns NaN, which the sort reads as "equal". That makes the comparator inconsistent, and the engine's order is then implementation-defined.
- Selection.CountRatings: the object's keys are `String(movieId)`. The map is keyed by the parsed id instead (`None` for NaN), which gives the same grouping because `String` is one-to-one on integers and every NaN becomes the key `"NaN"`.
- MovieData.MovieLineRoundTrip: the id is written as `String(id)`, so this lemma covers canonical numerals only. Zero-padded ids such as `0114508` are covered by `MovieData.MovieDumpLine` and `MovieData.RatingDumpLine`. Ids with a `+` sign are covered by neither. The title may hold `:` and `(`, but not `::` or ` (`, since either would start a new field or the year.
