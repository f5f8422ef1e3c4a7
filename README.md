# Text element placeholder substitution, modelled in Dafny

The text element of the custom certificate module stores a piece of text
in which `@{key}` placeholders stand for course and user fields. When the
certificate is drawn, the element:

- collects every key the pattern `@{([^}]+)}` captures;
- returns the text unchanged when there is none;
- builds a field table with `course_<name>` entries from the course record,
  where each custom field of type duration is first rewritten as a
  human-readable duration, followed by `user_<name>` entries from the user
  record;
- returns "" as soon as one captured key is missing or PHP-empty (null, ""
  or "0") in that table;
- otherwise wraps every table key as `@{key}` and applies PHP's array form
  of `str_replace`.

The project has six files:

- `php_values.dfy` (module `PhpValues`) covers the PHP values involved:
  null or string, `empty()`, `intval()` and integer-to-string conversion.
- `php_arrays.dfy` (module `PhpArrays`) covers ordered property tables and
  the `stdClass` object whose properties are written one by one (class
  `PhpObject`).
- `php_strings.dfy` (module `PhpStrings`) covers `str_replace`, for one pair
  and in its array form.
- `duration.dfy` (module `Duration`) specifies both forms of the duration
  formatter and proves that a parser reads either form back to the seconds
  it came from.
- `element.dfy` (module `TextElement`) holds the element's own operations as
  imperative methods proved against specification functions, plus the
  lemmas about them.
- `examples_text.dfy` (module `TextElementCases`) works through cases on
  concrete inputs.

The database lookups are inputs to the model:

- the course record, with its custom fields already loaded;
- the list of short names of the course custom fields whose type is
  duration;
- the user record, with its profile fields already loaded.

Behaviour worth knowing:

- Array-form `str_replace` is a sequential left fold over the pairs in
  table order: course entries first, then user entries. A later pair
  therefore also rewrites text that an earlier pair inserted (see
  `TextElementCases.SequentialReplacement`). It is not one simultaneous
  multi-pattern replacement.
- Every unit the duration formatter emits is followed by a space
  (`"1 hour "`).
- A unit word is plural only when its count is greater than 1, so a count
  of 0 is singular. The short form of 0 seconds is `"0 week "`, because 0
  is divisible by every span.
- Course keys start with `course_` and user keys with `user_`. A user entry
  can therefore never overwrite a course entry (`CourseAndUserNamesDiffer`,
  `AllFieldsLayout`).

## Model

| member | source | states |
|---|---|---|
| TextElement.ReplacePlaceholder | element/text/classes/element.php:114-128 | the result is the text itself when no key is captured, "" when some captured key is missing or empty in the merged field table, and otherwise the sequential array-form replacement of every wrapped key by its value |
| TextElement.AllMatchesFilled | element/text/classes/element.php:121-125 | the early-exit loop over the captured keys answers true exactly when every captured key reads as non-empty in the table |
| TextElement.Tokens | element/text/classes/element.php:116 | every key captured by `@{([^}]+)}` is non-empty and contains no '}' |
| TextElement.TokensEmptyIff | element/text/classes/element.php:115-118 | nothing is captured exactly when the text has no match of the pattern anywhere |
| TextElement.TokensOccur | element/text/classes/element.php:116 | every captured key occurs in the text as its placeholder `@{key}` |
| TextElement.TokensComplete | element/text/classes/element.php:116 | conversely, every match `@{key}` of the pattern that no earlier match overlaps has its key captured |
| TextElement.CloseIndex | element/text/classes/element.php:116 | the key runs to the first '}' after the opening `@{`, or to the end of the text when there is none |
| TextElement.NoPlaceholderUnchanged | element/text/classes/element.php:115-118 | text without a match of the pattern is returned unchanged, whatever the fields |
| TextElement.UnresolvedSuppresses | element/text/classes/element.php:121-125 | one captured key that is missing, null, "" or "0" makes the result "", whatever the other keys hold |
| TextElement.ResolvedPlaceholdersAreSearched | element/text/classes/element.php:126-127 | a captured key that resolves occurs in the text as a search string of the replacement table, which maps it to the field's value |
| TextElement.GetAllFields | element/text/classes/element.php:130-147 | the field table is the course record, with each listed duration field rewritten, merged with prefix `course`, and then the user record merged with prefix `user` |
| TextElement.TranslatedCourseLookup | element/text/classes/element.php:134-139 | each listed duration field reads as the long form of the seconds its old value held (a missing field reads as 0 seconds, which is ""), and every other course field keeps its value |
| TextElement.RewrittenListed | element/text/classes/element.php:137-139 | with distinct short names, each rewritten `customfield_<name>` reads as the rewrite of the record's value for it |
| TextElement.RewrittenOthers | element/text/classes/element.php:137-139 | names that are not a listed `customfield_<name>` keep the record's value |
| TextElement.RewrittenUnique | element/text/classes/element.php:137-139 | rewriting the duration fields keeps the course record's property names distinct |
| TextElement.DurationKeyInjective | element/text/classes/element.php:138 | distinct short names give distinct `customfield_` property names |
| TextElement.AllFieldsLookup | element/text/classes/element.php:134-146 | `course_f` reads the translated course field `f`, `user_g` reads the user field `g`, and a missing field stays missing |
| TextElement.AllFieldsLayout | element/text/classes/element.php:130-147 | the table lists every course field as `course_*`, then every user field as `user_*`, in their records' order |
| TextElement.AllFieldsUnique | element/text/classes/element.php:130-147 | the merged table has distinct keys |
| TextElement.CourseAndUserNamesDiffer | element/text/classes/element.php:140-144 | no `course_*` key equals a `user_*` key, so the user merge never overwrites a course entry |
| TextElement.MergeWithPrefix | element/text/classes/element.php:149-153 | the object ends as the target after writing `prefix_f := v` for each entry of the source in order, and its property names stay distinct |
| TextElement.MergeSets | element/text/classes/element.php:149-153 | every entry `f => v` of the source reads back as `prefix_f => v`, whatever the target held under that name |
| TextElement.MergeKeeps | element/text/classes/element.php:149-153 | every name that is not `prefix_f` for a source entry `f` keeps the target's value |
| TextElement.MergedAppends | element/text/classes/element.php:149-153 | into a target that has none of the new names, the prefixed entries are appended in the source's order |
| TextElement.MergedUnique | element/text/classes/element.php:149-153 | merging keeps the property names distinct |
| TextElement.PrefixedNameInjective | element/text/classes/element.php:151 | distinct field names stay distinct under the same prefix |
| TextElement.EncapsulatePlaceholder | element/text/classes/element.php:155-161 | the loop builds the table with every key `k` renamed `@{k}`, values and order kept |
| TextElement.EncapsulatedShape | element/text/classes/element.php:155-161 | the replacement table has the same size and order, with wrapped keys, unchanged values and distinct keys |
| TextElement.EncapsulatedLookup | element/text/classes/element.php:155-161 | `@{k}` reads in the replacement table exactly what `k` reads in the field table, including a missing `k` |
| TextElement.WrapInjective | element/text/classes/element.php:158 | wrapping a key as `@{k}` is injective |
| TextElement.TranslateDuration | element/text/classes/element.php:163-211 | the short branch returns the short form of the seconds and the long branch returns the long form |
| Duration.ShortFormFinestFirst | element/text/classes/element.php:166-184 | the nested tests, from minutes up to weeks, stop at the coarsest unit whose span divides the seconds, with the quotient as count |
| Duration.ShortFormIsCoarsest | element/text/classes/element.php:166-184 | the short form's unit divides the seconds, its count times its span is the seconds, and no coarser unit divides them |
| Duration.Word | element/text/classes/element.php:167-207 | the unit word is the plural exactly when the count is greater than 1, and the singular exactly when it is 0 or 1 |
| Duration.Phrase | element/text/classes/element.php:167-207 | every piece "<n> <unit> " is non-empty and ends with a space |
| Duration.DivisibilityChain | element/text/classes/element.php:168-178 | a multiple of a week is a multiple of a day, which is a multiple of an hour, which is a multiple of a minute |
| Duration.ShortTextOfZero | element/text/classes/element.php:166-184 | the short form of 0 seconds is "0 week " |
| Duration.LongTextByPieces | element/text/classes/element.php:186-210 | the long form is the days, hours, minutes and seconds pieces in that order, each "<n> <unit> " and left out when 0 |
| Duration.LongComponents | element/text/classes/element.php:186-204 | days * 86400 + hours * 3600 + minutes * 60 + seconds gives back the input, with hours < 24 and minutes, seconds < 60 |
| Duration.LongFormCanonical | element/text/classes/element.php:186-210 | the long form lists units strictly from coarse to fine, each count positive and in range, adding up to the input |
| Duration.BreakdownCanonical | element/text/classes/element.php:186-210 | any days, hours < 24, minutes < 60 and seconds < 60, with the zero ones dropped, form a canonical breakdown of their total |
| Duration.RenderEmpty | element/text/classes/element.php:188-208 | rendering a list of quantities gives "" exactly for the empty list |
| Duration.SecondsOfCanonical | element/text/classes/element.php:186-210 | a canonical breakdown stands for 0 seconds exactly when it is empty |
| Duration.PositiveCons | element/text/classes/element.php:188-208 | a component is kept in front of the remaining positive ones exactly when its count is positive |
| Duration.LongTextEmpty | element/text/classes/element.php:186-210 | the long form is "" exactly for 0 seconds |
| Duration.DurationRoundTrip | element/text/classes/element.php:163-211 | reading either form back gives the seconds it was made from |
| Duration.ParseRender | element/text/classes/element.php:167-207 | reading back any list of rendered pieces gives the seconds they stand for |
| Duration.ParsePiece | element/text/classes/element.php:167-207 | one piece "<digits> <word> " is read as its count and unit in front of the rest |
| Duration.WordReadsBack | element/text/classes/element.php:167-207 | every unit word is read back as its unit and contains no space |
| Duration.RenderAppend | element/text/classes/element.php:188-208 | appending pieces to the output concatenates their texts |
| Duration.RenderOne | element/text/classes/element.php:167-181 | one rendered quantity is its phrase |
| Duration.PositiveOfFour | element/text/classes/element.php:188-208 | keeping the positive components of four keeps exactly the positive ones, in order |
| Duration.PositiveCanonical | element/text/classes/element.php:188-208 | dropping zero counts keeps the order and leaves only positive counts drawn from the input |
| Duration.SecondsOfPositive | element/text/classes/element.php:188-208 | dropping zero counts does not change the seconds a list stands for |
| PhpValues.IsEmpty | element/text/classes/element.php:122 | `empty()` holds for null, "" and "0", each of which reads as 0 under `intval` |
| PhpValues.IsEmptyEntry | element/text/classes/element.php:122 | a missing property is empty, and a present one is empty exactly when its value is |
| PhpValues.AsString | element/text/classes/element.php:127 | a value converts to "" or "0" exactly when it is empty |
| PhpValues.IntVal | element/text/classes/element.php:138 | a string of decimal digits reads as the number it denotes |
| PhpValues.NatToString | element/text/classes/element.php:167 | an integer prints as a non-empty string of digits without a leading zero |
| PhpValues.DigitsValueOfNatToString | element/text/classes/element.php:167 | the printed digits denote the integer that was printed |
| PhpValues.LeadingDigits | element/text/classes/element.php:167 | `intval` reads the longest digit prefix of a string |
| PhpValues.LeadingDigitsOfDigits | element/text/classes/element.php:167 | a digit string followed by a non-digit has exactly that digit string as its digit prefix |
| PhpValues.IntValOfNatToString | element/text/classes/element.php:167 | `intval` reads back a printed integer followed by text that starts with a non-digit |
| PhpArrays.PhpObject.Set | element/text/classes/element.php:151 | writing a property overwrites it in place or appends it, and keeps the names distinct |
| PhpArrays.PhpObject.constructor | element/text/classes/element.php:132 | a new object holds exactly the given properties |
| PhpArrays.Lookup | element/text/classes/element.php:122 | a name reads as missing exactly when the table does not hold it, and otherwise reads the value of an entry with that name |
| PhpArrays.Get | element/text/classes/element.php:138 | a missing property reads as null, and in a table with distinct names each entry's name reads its value |
| PhpArrays.Put | element/text/classes/element.php:151 | after writing, the name is present, and the table grows by one exactly when the name was new |
| PhpArrays.PutLookup | element/text/classes/element.php:151 | after writing `k := v`, `k` reads `v` and every other name reads what it read before |
| PhpArrays.PutUnique | element/text/classes/element.php:151 | writing a property keeps the names distinct |
| PhpArrays.PutInPlace | element/text/classes/element.php:151 | writing an existing name replaces its entry in place, without changing the order |
| PhpArrays.PutAppends | element/text/classes/element.php:158 | writing a new name appends it at the end |
| PhpArrays.LookupAt | element/text/classes/element.php:122 | in a table with distinct names, each entry's name reads its value |
| PhpArrays.MapKeysShape | element/text/classes/element.php:155-161 | renaming keeps the size, the order and the values |
| PhpArrays.MapKeysUnique | element/text/classes/element.php:155-161 | an injective renaming keeps the names distinct |
| PhpStrings.ReplaceAll | element/text/classes/element.php:127 | a subject in which the search string does not occur is returned unchanged |
| PhpStrings.StrReplace | element/text/classes/element.php:127 | when no search string of the pairs occurs in the subject, the array form returns it unchanged |
| PhpStrings.StrReplaceAppend | element/text/classes/element.php:127 | the pairs after a split point work on the text the pairs before it produced |
| PhpStrings.ReplaceAllIsJoinOfSplit | element/text/classes/element.php:127 | replacing is joining with the replacement the pieces between the non-overlapping occurrences |
| PhpStrings.JoinOfSplit | element/text/classes/element.php:127 | joining the pieces with the search string gives the subject back |
| PhpStrings.Split | element/text/classes/element.php:127 | splitting gives at least one piece |
| TextElementCases.EmptyBracesNotAToken | element/text/classes/element.php:116 | "@{}" captures nothing |
| TextElementCases.KeyStopsAtFirstBrace | element/text/classes/element.php:116 | in "@{a}}" the key is "a": it stops at the first '}' |
| TextElementCases.OneHourShort | element/text/classes/element.php:166-184 | 3600 seconds in short form is "1 hour " |
| TextElementCases.TwoHoursShort | element/text/classes/element.php:166-184 | 7200 seconds in short form is "2 hours " |
| TextElementCases.SequentialReplacement | element/text/classes/element.php:127 | a course value that reads like a user placeholder is replaced again by the later user pair |
| TextElementCases.ZeroSuppresses | element/text/classes/element.php:121-125 | a captured key whose field holds "0" blanks the whole text |

## Left out

- Drawing the element (`render`, `render_html`) is left out. Both hand the
  text to a PDF and HTML helper that is not part of this model.
- The form and persistence glue (`render_form_elements`,
  `definition_after_data`, `save_unique_data`) is left out. It only calls
  the host form framework.
- `get_text` is left out: it falls back to the logged-in user and runs the
  host's HTML sanitiser, `format_text`. The user record is an input here,
  and sanitising is external.
- The database and host lookups are left out: `get_course`,
  `customfield_load_data`, the query for duration field short names,
  `core_user::get_user` and `profile_load_data`. Their results are the
  inputs `course`, `durationFields` and `user`.
- Field values are null or strings only. PHP integers, floats, arrays and
  objects as property values are not modelled, because the database layer
  returns column values as strings.
- `intval` is modelled as the value of the leading decimal digits. A sign,
  leading whitespace, hexadecimal or exponent notation and integer overflow
  are not modelled, because duration fields hold non-negative integers.
  For the same reason `TranslateDuration` takes the seconds as a `nat`, and
  `GetAllFields` applies `intval` before calling it.
- PHP's `/` returns a float before `%` truncates it back to an integer.
  This is modelled as integer division, which agrees for every
  non-negative integer. Float precision for values above 2^53 is not
  modelled.
- Casting the object to an array turns numeric-string keys such as `"123"`
  into integer keys. This is not modelled, because every key here starts
  with `course_` or `user_`.
- Strings are sequences of characters, while PHP works on bytes. This does
  not matter here, because the pattern and the wrapping use ASCII only.
- TextElement.TranslatedCourseLookup: states the translated value only for
  a list of distinct short names. The short names come from a table where
  they are unique. A name listed twice would be translated a second time,
  from the text the first translation produced; the methods model that too.
- TextElement.RewrittenListed: requires distinct short names, for the same
  reason.
- The short-form branch of the duration formatter is never called with
  `short` set by the element. It is still modelled and proved.
- The language strings file holds only interface text and is not part of
  this model.
