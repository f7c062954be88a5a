# fullstackopen exercises: a verified model of their decision logic

This project models, in Dafny, the three pieces of sequential logic in the
fullstackopen exercise repository that can be stated and proved once the
network, the DOM and the database are taken away:

- **Blog statistics helper** (`part4/utils/list_helper.js`), module `ListHelper`:
  `dummy`, `totalLikes` (a `reduce` from 0), `favoriteBlog` (a `reduce` from the
  first blog that replaces the favourite only on strictly more likes, projected
  to `{title, author, likes}`, `null` on an empty list) and the `mostBlogs`
  stub. A blog is the datatype `Blog`, the list a `seq<Blog>`, `null` is `None`.
- **Phonebook** (`part2/part2.10/src/App.jsx`), module `Phonebook`: the
  case-insensitive filter behind `filteredPersons`, and `addPerson` as a method
  of the class `App` holding `persons`, `newName`, `newNumber` and `searching`.
  The record the server returns from `rest.create` is the method's parameter
  (`None` when the request fails, in which case nothing changes).
- **Country search** (`part2/part2.21/src/App.jsx`), module `CountrySearch`:
  the filtered list (empty for a blank search) and the four-way choice of
  display from its length (`TooManyMatches`, `CountryList`, `CountryDetail`,
  `NoMatches`).

Two shared modules model what those files take from JavaScript: `JsStrings`
(`trim`, `toLowerCase`, `includes`) and `Seqs` (`Array.prototype.filter`,
with the subsequence and per-value count properties every filter here
inherits). `Wrappers` holds `Option`.

`mostBlogs` (`part4/utils/list_helper.js:21-23`) has an empty body and is not
exported, so `ListHelper.MostBlogs` returns `Undefined` and no grouping by
author is modelled. The code never checks the sign of `likes`, so `likes` is
any integer.

An invariant partners `addPerson`: `Phonebook.Consistent` (no blank name or
number, no two names equal ignoring case, no two equal numbers) is kept by
every accepted add whose server record echoes the submitted name and number.

## Model

| member | source | states |
|---|---|---|
| `ListHelper.Dummy` | part4/utils/list_helper.js:1-3 | the result is 1 for every list, the empty one included |
| `ListHelper.SumFromAdds` | part4/utils/list_helper.js:6 | the `reduce` of `sum + blog.likes` from any accumulator ends on that accumulator plus the sum of all likes |
| `ListHelper.LikesSumAppend` | part4/utils/list_helper.js:5-7 | the sum of likes of a concatenation is the sum of the two parts' sums |
| `ListHelper.TotalLikes` | part4/utils/list_helper.js:5-7 | `totalLikes` equals the independently defined sum of every blog's likes, and is 0 on the empty list |
| `ListHelper.TotalLikesAppend` | part4/utils/list_helper.js:5-7 | `totalLikes(a + b) == totalLikes(a) + totalLikes(b)` |
| `ListHelper.TotalLikesPermutation` | part4/utils/list_helper.js:5-7 | two lists holding the same blogs in any order have the same `totalLikes` |
| `ListHelper.FoldFindsFirstMax` | part4/utils/list_helper.js:13-15 | the favourite fold, resumed at any position with the first maximum of the prefix, ends on the first maximum of the whole list |
| `ListHelper.FoldFavoriteIsFirstMax` | part4/utils/list_helper.js:13-15 | the fold started from `blogs[0]` over the whole list ends on a blog that has the maximum likes and no earlier blog reaches |
| `ListHelper.FavoriteBlog` | part4/utils/list_helper.js:9-19 | `null` exactly when the list is empty; otherwise the projection of a blog at a first-maximum position |
| `ListHelper.FavoriteBlogHasMaxLikes` | part4/utils/list_helper.js:13-15 | on a non-empty list the favourite's likes are at least every blog's likes |
| `ListHelper.FavoriteBlogIsMember` | part4/utils/list_helper.js:13-18 | the favourite carries title, author and likes of some blog of the list, unchanged |
| `ListHelper.FavoriteBlogTieBreak` | part4/utils/list_helper.js:14 | among blogs sharing the maximum the first by position is the favourite, because replacement needs strictly more likes |
| `ListHelper.FavoriteBlogSingleton` | part4/utils/list_helper.js:13-18 | a one-element list has that blog's projection as favourite |
| `ListHelper.MostBlogs` | part4/utils/list_helper.js:21-23 | the unimplemented stub: `undefined` for every list |
| `JsStrings.TrimStartShape` | part2/part2.10/src/App.jsx:83 | trimming the start drops exactly a whitespace prefix, leaving a string that does not start with whitespace |
| `JsStrings.TrimEndShape` | part2/part2.10/src/App.jsx:83 | trimming the end drops exactly a whitespace suffix, leaving a string that does not end with whitespace |
| `JsStrings.TrimShape` | part2/part2.10/src/App.jsx:83 | `trim` returns a slice `s[i..j]` with whitespace before and after it, and the slice neither starts nor ends with whitespace |
| `JsStrings.TrimEmptyIff` | part2/part2.21/src/App.jsx:15 | a string trims to "" exactly when every character is whitespace |
| `JsStrings.Lower` | part2/part2.10/src/App.jsx:79 | `toLowerCase` keeps the length |
| `JsStrings.LowerAt` | part2/part2.10/src/App.jsx:88 | each character is lowered on its own, and characters other than upper-case letters are kept |
| `JsStrings.LowerIdempotent` | part2/part2.10/src/App.jsx:88 | lowering twice is lowering once |
| `JsStrings.ContainsIff` | part2/part2.21/src/App.jsx:21 | `includes` holds exactly when the needle occurs as a contiguous slice of the haystack |
| `JsStrings.ContainsEmpty` | part2/part2.10/src/App.jsx:79 | every string includes "" |
| `Seqs.Filter` | part2/part2.10/src/App.jsx:79 | `filter` never returns more elements than it is given |
| `Seqs.FilterIsSubsequence` | part2/part2.10/src/App.jsx:79 | `filter` returns a subsequence: order kept, nothing added |
| `Seqs.FilterCount` | part2/part2.21/src/App.jsx:20-22 | a kept value occurs in the result as often as in the input, a dropped one not at all |
| `Seqs.FilterCounts` | part2/part2.21/src/App.jsx:20-22 | the same, for every value at once |
| `Seqs.FilterMembership` | part2/part2.10/src/App.jsx:88-89 | a value is in the result exactly when it is in the input and kept |
| `Seqs.FilterKeepsAll` | part2/part2.10/src/App.jsx:79 | when every element is kept the result is the input |
| `Seqs.FilterSingleton` | part2/part2.21/src/App.jsx:44-45 | the result is `[x]` exactly when a single position is kept and holds `x` |
| `Seqs.FilterNoneKept` | part2/part2.21/src/App.jsx:46-47 | the result is empty exactly when no position is kept |
| `Phonebook.FilterPersons` | part2/part2.10/src/App.jsx:79 | the shown persons are a subsequence of `persons`; a person is shown iff its lowered name includes the lowered filter text, and then as often as it is listed |
| `Phonebook.EmptySearchShowsAll` | part2/part2.10/src/App.jsx:79 | an empty filter text shows every person, in order |
| `Phonebook.SameName` | part2/part2.10/src/App.jsx:88 | `existingPersons` holds exactly the listed persons whose name equals the typed name ignoring case |
| `Phonebook.SameNumber` | part2/part2.10/src/App.jsx:89 | `existingNumber` holds exactly the listed persons whose number equals the typed number exactly |
| `Phonebook.Validate` | part2/part2.10/src/App.jsx:83-99 | blank name or number (all whitespace) is rejected first; else a name equal ignoring case to an existing one; else a number equal to an existing one; accepted exactly when none applies |
| `Phonebook.AcceptKeepsConsistent` | part2/part2.10/src/App.jsx:83-109 | appending a person that passes the checks keeps names non-blank and distinct ignoring case and numbers non-blank and distinct |
| `Phonebook.App.FilteredPersons` | part2/part2.10/src/App.jsx:79 | the list rendered from the component's own `persons` and `searching`: a subsequence of `persons` holding a person exactly when it passes the filter, and then as often as it is listed |
| `Phonebook.App.constructor` | part2/part2.10/src/App.jsx:49-53 | persons, name, number and filter text all start empty |
| `Phonebook.App.ReceivePersons` | part2/part2.10/src/App.jsx:55-63 | the fetched list replaces `persons`; the input fields are untouched |
| `Phonebook.App.HandleNameChange` | part2/part2.10/src/App.jsx:66-69 | only `newName` changes, to the typed value |
| `Phonebook.App.HandleNumberChange` | part2/part2.10/src/App.jsx:71-73 | only `newNumber` changes, to the typed value |
| `Phonebook.App.HandleFilter` | part2/part2.10/src/App.jsx:75-77 | only `searching` changes, to the typed value |
| `Phonebook.App.AddPerson` | part2/part2.10/src/App.jsx:81-115 | a failed check rejects with its reason and changes nothing; a failed request changes nothing; otherwise the created record is appended at the end and both fields reset to ""; the filter text never changes; `Consistent` is kept when the record echoes the submitted fields |
| `CountrySearch.FilterCountries` | part2/part2.21/src/App.jsx:14-24 | a blank search gives []; otherwise a subsequence of the countries holding each matching country as often as listed and no other |
| `CountrySearch.Classify` | part2/part2.21/src/App.jsx:36-48 | more than 10 matches: too many; 2 to 10: the list of all matches in order; exactly 1: the detail of that country; 0: no countries found |
| `CountrySearch.Search` | part2/part2.21/src/App.jsx:14-48 | the filter followed by the display choice: a search that is all whitespace shows "no countries found"; a detail is always of a loaded country that matches; "too many" needs a non-blank search and more than 10 loaded countries |
| `CountrySearch.ListedAreTheMatches` | part2/part2.21/src/App.jsx:20-43 | the list display holds 2 to 10 countries, in their loaded order, exactly the matching ones, each as often as it is loaded |
| `CountrySearch.DetailIsTheOnlyMatch` | part2/part2.21/src/App.jsx:14-45 | the detail of a country is shown exactly when the search is not blank and a single position of the loaded list matches, holding that country |
| `CountrySearch.NoMatchesIff` | part2/part2.21/src/App.jsx:14-47 | "no countries found" is shown exactly when the search is blank or no country matches |

The four outcomes are the four constructors of one datatype, so they are
exhaustive and mutually exclusive by construction.

## Left out

- `mostBlogs` grouping, and any "most blogs" or "most likes" per author statistic: the source function is an empty stub; `MostBlogs` returns `Undefined`.
- `JsStrings.Lower`: lowers the ASCII letters A-Z only; JavaScript's full Unicode case mapping (including mappings that change the length) is not modelled.
- JavaScript strings are UTF-16 code units; here they are sequences of Unicode characters.
- `likes` is a JavaScript number; the model uses unbounded integers, so floating-point rounding, `NaN` from a missing field and string concatenation from a string-valued field are not modelled.
- `Phonebook.App.AddPerson`: the request is asynchronous and its callback appends to the `persons` captured when the form was submitted; the model has the reply arrive before any other event, so a stale list is not modelled. React's batching of the three setters is not modelled either.
- `persons.concat(response)` would flatten a reply that is an array; the reply is modelled as one record.
- The `alert` messages and `console.log` calls: each alert is represented only by its `Rejection` value.
- Network I/O (`axios`, the `rest` service, the countries REST endpoint): replies enter as parameters (`ReceivePersons`, `AddPerson`) or as the `countries` argument.
- All React rendering, including `CountryDetail`'s capital, area, languages and flag; `Country` keeps only the common name and the key.
- The storing effect `setFilteredCountries`: `FilterCountries` computes the value it stores.
- The Express/Mongoose blog API (`part4/app.js`, `part4/controllers/blogs.js`, `part4/index.js`), its configuration and its HTTP tests: persistence, HTTP and authentication live in libraries.
- `part1/part1.11/src/App.jsx` feedback statistics (floating-point averages) and `part1/part1.5/src/App.jsx` (rendering only).
