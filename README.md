# Customs declaration flattener and its XPath machinery

This project models the core of a small customs-declaration tool. It also
models the parts of the two XML libraries that the tool carries with it.

The tool has three scripts:

- **gelenParse.py** reads an incoming declaration (`Gelen.xml`). It strips
  every namespace from the tags. It then flattens `BeyannameBilgi` into the
  sheets of one workbook:
  - a row of its direct children;
  - one table per repeated-row section (`firma`, `kalem`, `Soru_Cevap`,
    `Dokuman`, `Vergi`, `KiymetKalem`);
  - the first `Ozetbeyan` line without its container.
- **sonucParse.py** reads the customs office's answer (`Sonuc.xml`) the same
  way. The root's direct children become a general row, and each section
  becomes a table.
- **beyannameno.py** fills a caller's dictionary in place. The key is each
  answer file's name; the value is the text of that file's `Beyanname_no`.

Flattening one row element works like this:

- the column headers come from the first row's pre-order walk (the row
  element itself included);
- the values come from each row's own walk;
- `dict(zip(headers, values))` builds the row, so a key keeps its first
  position and takes the last value given to it.

Every script stops at its first Python exception. The model returns that
exception in a `Result`.

From `elementpath` the model takes these parts:

- XPath 2.0 sequence functions: `distinct-values`, `insert-before`,
  `index-of`, `remove`, `reverse`, `subsequence`;
- the cardinality checks;
- the codepoint functions and the duration component functions;
- the token helpers: `ordinal`, `boolean_value`, `add_xsd_type`,
  `error_prefix` and the error shortcuts;
- parser operators: comment scanning, `,`, `to`, `some`/`every`,
  `instance of`, `cast`/`castable`, `is`/`<<`/`>>`, `intersect`/`except`;
- the parser's default namespaces.

From `xmlschema/xpath.py` the model takes these parts:

- the element iterator, which expands local elements without repetition;
- `iterchildren`;
- the namespace map used for XPath;
- path normalisation before parsing;
- the pickling state;
- `get_primitive_type`.

The model is organised as follows:

- Script-level code that computes a value is a function. The script itself
  is a method proved equal to that function.
- Step-by-step loops are methods with invariants. These are the namespace
  strip over the document's tags, the flattening loops, the comment scanner,
  the quantifier and `instance of` loops, and the safe iterator. The body
  of the safe iterator's loop over the children is its own method,
  `SafeIterChild`, which calls back into `SafeIter`.
- An object whose fields change is a class. These are the caller's
  dictionary, the token's type table, the namespace map and the pickled
  attribute dictionary.

## Model

| member | source | states |
|---|---|---|
| ElementTree.Iter | gelenParse.py:66-71 | `element.iter()` walks the element first, then its descendants in pre-order |
| ElementTree.FindAll | gelenParse.py:57 | `findall(tag)` lists only direct children with that tag, and every one of them; FilterTagAppend, FilterTagOne and FilterTagCount state the document order and the multiplicity |
| ElementTree.FilterTagAppend | gelenParse.py:57 | the matches of a concatenation are the matches of each part in turn, so `findall` keeps document order |
| ElementTree.FilterTagOne | gelenParse.py:57 | a single child is listed exactly when it carries the tag |
| ElementTree.FilterTagCount | gelenParse.py:57 | a child carrying the tag is listed as often as it occurs among the children, and no other node is listed |
| ElementTree.Find | gelenParse.py:56 | `find(tag)` gives a direct child with that tag, and None exactly when no direct child has it; FindIsFirstOfFindAll states that it is the first |
| ElementTree.FindIsFirstOfFindAll | gelenParse.py:56 | `find(tag)` is None when `findall(tag)` is empty, and otherwise its first element |
| ElementTree.LocalName | gelenParse.py:27 | `tag.split('}', 1)[1]` fails (IndexError) exactly when the tag has no `}`; otherwise it is the suffix after the first `}` |
| ElementTree.LocalNameOfClark | gelenParse.py:27 | on a Clark name `{uri}local` whose URI has no `}`, the split gives `local` |
| ElementTree.LocalNameAfterBrace | gelenParse.py:27 | any prefix without `}`, followed by `}` and `local`, gives `local` |
| ElementTree.LocalNames | sonucParse.py:10-11 | on all-qualified tags, each result is that tag's local name |
| ElementTree.StripNamespaces | gelenParse.py:25-28 | the in-place strip loop over the tags succeeds exactly when every tag is qualified, and then holds every local name; on failure, the tags before the first unqualified one are stripped and the rest are unchanged |
| ElementTree.RelabelWalk | gelenParse.py:26-27 | writing a tag list back into the tree gives a walk with exactly those tags and the same texts |
| ElementTree.RelabelOwnTags | gelenParse.py:26-27 | writing a tree's own tags back leaves it unchanged |
| ElementTree.StripDocument | sonucParse.py:9-12 | the strip pass fails exactly when some element of the walk is unqualified; on success the walk keeps its length and texts, and each tag is the old tag's local name |
| ElementTree.Stripped | sonucParse.py:9-12 | the tree after the strip pass, or the IndexError it raises; StripDocument states when it fails and what the tags become |
| PyDict.GetPut | gelenParse.py:73 | a dict store keeps an existing key's position or appends a new key; only that key changes |
| PyDict.Zip | gelenParse.py:48 | `zip(a, b)` has as many pairs as the shorter list; DictOfSpec and RowOfSpec state what the dict of the pairs holds |
| PyDict.DictOfSpec | gelenParse.py:73 | `dict(pairs)` has keys in order of first occurrence, and each key holds its last value |
| PyDict.DictOfNoDup | gelenParse.py:48 | `dict(pairs)` with distinct keys is the pair list itself |
| PyDict.DictOfEntries | gelenParse.py:73 | `dict(pairs)` has no duplicate key, has exactly the pairs' keys, and each entry is the key's last value |
| PyDict.DictOf | gelenParse.py:73 | `dict(pairs)` has no more entries than there are pairs; DictOfSpec and DictOfEntries state its keys and values |
| Sequences.DistinctSpec | gelenParse.py:73 | the key order has no repeats, the same members, and follows first occurrence |
| Sequences.Distinct | gelenParse.py:73 | the key order is no longer than the keys; DistinctSpec states its members and order |
| Sequences.DistinctOfNoDup | sonucParse.py:21 | a list without repeats is its own key order |
| Sequences.FirstIndexAppend | gelenParse.py:73 | appending does not move a first occurrence |
| Flatten.FlattenRows | gelenParse.py:63-79 | the header, counter and row loop returns the row table of the rows, or None when there are no rows |
| Flatten.RowsTable | gelenParse.py:63-79 | the row table is None exactly when there are no rows; RowsTableStep and RowsTableAppend state its rows |
| Flatten.RowOf | gelenParse.py:73 | `dict(zip(headers, values))` for one row; RowOfSpec states its columns and values |
| Flatten.RowsTableStep | sonucParse.py:35-46 | iteration r appends the row built from the first row's headers and row r's texts |
| Flatten.RowOfSpec | gelenParse.py:66-73 | a row's columns are the distinct headers of the zipped prefix; each value is the last one zipped for that header; the first column is the row tag |
| Flatten.LastValueUnique | gelenParse.py:73 | a header that occurs once holds its own row's text |
| Flatten.RowsTableAppend | sonucParse.py:35-46 | more rows extend the table and leave the earlier rows unchanged |
| Flatten.RowTagIsFirstColumn | gelenParse.py:112-127 | every row's first column is the row tag; when no descendant reuses that tag, it holds the row element's own text |
| Flatten.SameShapeRowColumns | gelenParse.py:147-163 | a row at least as long as the first has the first row's distinct tags as columns, one per distinct tag |
| Flatten.DistinctCard | gelenParse.py:157 | the number of distinct keys is the size of the key set |
| Flatten.ChildrenRowColumns | gelenParse.py:42-49 | the direct-children row has one column per distinct child tag, and every child's tag is a column |
| Flatten.ChildrenRow | gelenParse.py:42-49 | the direct-children row `dict(zip(tags, texts))`; ChildrenRowColumns states its columns and DirectChildrenRow the loop that builds it |
| Flatten.DirectChildrenRow | gelenParse.py:42-49 | the loop over the direct children builds the direct-children row |
| Flatten.WalkRowWithoutContainerColumns | gelenParse.py:92-98 | the Ozetbeyan row's columns are the distinct tags below the line; the line's own tag is absent unless a descendant reuses it |
| Flatten.WalkRowWithoutContainer | gelenParse.py:95-97 | the row of a line's walk without the line itself; WalkRowWithoutContainerColumns states its columns |
| Flatten.ItemWalk | gelenParse.py:66 | the walk of a row with two leaf children is the row and then its children |
| Flatten.OneRowExample | gelenParse.py:63-79 | a one-row section gives one row whose container column holds None |
| Sections.FlattenSection | sonucParse.py:28-51 | `find` then `findall` then flatten: AttributeError when the section is missing, None when it has no rows |
| Sections.SectionRows | sonucParse.py:28-51 | the section lookup fails, with AttributeError on `findall`, exactly when the section is missing; SectionRowsSpec states the rows |
| Sections.SectionRowsSpec | sonucParse.py:28-51 | the section lookup fails exactly when the section is missing; the result is None exactly when the section has no rows; otherwise there is one row per row element, and its first column is the row tag |
| Sections.Bound | gelenParse.py:82 | reading a table no loop bound raises NameError naming the variable |
| Sections.Required | gelenParse.py:93-95 | a None lookup raises the given exception, and a found element passes through |
| Sections.FlattenRepeated | gelenParse.py:105-133 | the section table, with NameError when there were no rows |
| Sections.Repeated | gelenParse.py:105-133 | the section table as a function, which FlattenRepeated computes; RepeatedSpec states when it succeeds and its rows |
| Sections.RepeatedSpec | gelenParse.py:105-133 | a repeated section succeeds exactly when it is present and has rows; a missing section raises AttributeError; an empty one raises NameError; the table has one row per row element and each row starts with the row tag |
| GelenParse.GelenTables.Sheets | gelenParse.py:52-261 | the workbook's sheets in the order written, under the names given |
| GelenParse.ParseGelen | gelenParse.py:25-261 | the script computes the Gelen tables, or the first exception |
| GelenParse.GelenWorkbook | gelenParse.py:25-261 | the workbook the script writes, or its first exception; GelenSucceeds states when it succeeds and the sheet lemmas state the sheets |
| GelenParse.GelenSucceeds | gelenParse.py:25-261 | the script runs to the end exactly when every tag is qualified, BeyannameBilgi exists, and every section it reads is present with rows |
| GelenParse.BilgiSucceeds | gelenParse.py:42-259 | past BeyannameBilgi, the script succeeds exactly when all its sections are present |
| GelenParse.FrontSucceeds | gelenParse.py:56-133 | the firma, Ozetbeyan and kalem part succeeds exactly when those sections are present with rows |
| GelenParse.BackSucceeds | gelenParse.py:140-259 | the Soru_Cevap, Dokuman, Vergi and Kiymet part succeeds exactly when those sections are present with rows |
| GelenParse.GelenUnqualifiedTag | gelenParse.py:25-28 | any unqualified tag anywhere raises IndexError before anything is written |
| GelenParse.BilgiRepeatedSheets | gelenParse.py:63-259 | every repeated-row sheet has each row tagged with its row element |
| GelenParse.FrontRepeated | gelenParse.py:63-133 | the firma and kalem rows are tagged with their row elements |
| GelenParse.BackRepeated | gelenParse.py:147-259 | the Soru_Cevap, Dokuman, Vergi and KiymetKalem rows are tagged with their row elements |
| GelenParse.BilgiSingleRowSheets | gelenParse.py:42-98 | the Beyanname sheet's columns are BeyannameBilgi's distinct child tags; the Ozetbeyan sheet is the first line's row |
| GelenParse.OzetbeyanFirstLine | gelenParse.py:92-98 | the Ozetbeyan row exists exactly when the section has a line; it is the first line's walk without the line |
| GelenParse.OzetbeyanRow | gelenParse.py:92-98 | a missing Ozetbeyanlar raises AttributeError on `find`, a missing line raises AttributeError on `iter`, and the row exists exactly when both are found |
| GelenParse.KiymetSection | gelenParse.py:228-230 | a missing KiymetBildirim raises AttributeError on `find`; a missing Kiymet raises TypeError when it is iterated; otherwise the result is a Kiymet child of KiymetBildirim |
| SonucParse.ParseSonuc | sonucParse.py:9-218 | the script computes the Sonuc tables, or the first exception; the two Toplam_vergiler tables are equal |
| SonucParse.SonucResult | sonucParse.py:9-218 | the tables the script prints, or its first exception; SonucSucceeds states when it succeeds and the table lemmas state the tables |
| SonucParse.SonucSucceeds | sonucParse.py:9-218 | the script runs to the end exactly when every tag is qualified, every section exists, and Gumruk and Istatistiki have rows |
| SonucParse.FrontSucceeds | sonucParse.py:28-133 | the Belge, Vergi and Toplam part succeeds exactly when those sections exist, with or without rows |
| SonucParse.BackSucceeds | sonucParse.py:137-218 | the Hesap, Gumruk and Istatistiki part succeeds exactly when Hesap exists and the printed tables have rows |
| SonucParse.SonucMissingBelgeler | sonucParse.py:28-29 | a missing Belgeler raises AttributeError on `findall` |
| SonucParse.SonucEmptyGumruk | sonucParse.py:165-189 | a Gumruk section without rows raises NameError when its table is printed |
| SonucParse.SonucGeneralRow | sonucParse.py:19-22 | the general row has one column per distinct child tag; with distinct tags it holds each child's text in order |
| SonucParse.SonucRepeatedTables | sonucParse.py:28-218 | each optional table is None exactly when its section has no rows, and otherwise every row is tagged with the row element |
| SonucParse.FrontRepeatedTables | sonucParse.py:28-133 | Belge, Vergi and Toplam_Vergi: None exactly when the section has no rows, and otherwise row-tagged |
| SonucParse.BackRepeatedTables | sonucParse.py:137-218 | Hesap is None exactly when it has no rows; the Gumruk and Istatistiki tables are row-tagged |
| BeyannameNo.BeyannameNoGetter | beyannameno.py:14-25 | the caller's dictionary is updated in place, file by file, and returned; an exception leaves the earlier files stored |
| BeyannameNo.NumberOf | beyannameno.py:16-22 | one file's `Beyanname_no` text, or the exception reading it raises; NumberOfSpec states when each happens |
| BeyannameNo.Fill | beyannameno.py:15-25 | the loop over the files as a function of the dictionary; FillComplete, FillKeeps, FillStops and FillStopsAt state its outcome |
| BeyannameNo.NumberOfSpec | beyannameno.py:16-22 | a file has a number exactly when it parses, is fully qualified and has a `Beyanname_no` child; the number is the first such child's text; a missing child raises AttributeError |
| BeyannameNo.FillComplete | beyannameno.py:15-25 | after a full run, each listed file maps to its number, other keys keep their values, and no new keys appear |
| BeyannameNo.FillKeeps | beyannameno.py:23 | a key that no later file names keeps its value |
| BeyannameNo.FillStops | beyannameno.py:15-25 | the loop stops early exactly when some file has no number |
| BeyannameNo.FillStopsAt | beyannameno.py:15-25 | at the first file without a number, the run ends with that file's exception and the earlier files stored |
| XPathErrors.ShortcutCode | venv/Lib/site-packages/elementpath/xpath_token.py:708-754 | each error shortcut raises its fixed code, a well-formed XPath error code (four capitals, four digits) |
| XPathErrors.ShortcutCodes | venv/Lib/site-packages/elementpath/xpath_token.py:708-754 | no two error shortcuts raise the same code |
| XPathToken.Digits | venv/Lib/site-packages/elementpath/xpath_token.py:45-57 | the decimal digits of a number are non-empty and all digits |
| XPathToken.DigitsRoundTrip | venv/Lib/site-packages/elementpath/xpath_token.py:45-57 | reading the digits back gives the number |
| XPathToken.DigitsInjective | venv/Lib/site-packages/elementpath/xpath_token.py:45-57 | different numbers have different digits |
| XPathToken.DecimalStringInjective | venv/Lib/site-packages/elementpath/xpath_token.py:45-57 | different integers have different `str()` forms |
| XPathToken.DecimalStringSign | venv/Lib/site-packages/elementpath/xpath_token.py:45-57 | `str(n)` starts with `-` exactly when n is negative, and then the magnitude's digits follow |
| XPathToken.OrdinalSuffix | venv/Lib/site-packages/elementpath/xpath_token.py:45-57 | the suffix is one of "st", "nd", "rd" and "th" |
| XPathToken.Ordinal | venv/Lib/site-packages/elementpath/xpath_token.py:45-57 | `ordinal(n)`; OrdinalSpec states its digits and suffix |
| XPathToken.OrdinalSpec | venv/Lib/site-packages/elementpath/xpath_token.py:45-57 | `ordinal(n)` is `str(n)` plus a two-letter suffix; the suffix is "th" exactly for 11-13 or last digit not 1-3, "st" exactly for last digit 1 except 11, "nd" exactly for last digit 2 except 12, and "rd" exactly for last digit 3 except 13 |
| XPathToken.OrdinalExamples | venv/Lib/site-packages/elementpath/xpath_token.py:45-57 | 111 gives "111st", 12 gives "12th", and -1 gives "-1th" (Python's `%` on negatives) |
| XPathToken.BooleanValue | venv/Lib/site-packages/elementpath/xpath_token.py:607-627 | `boolean_value` fails exactly on a list of several items that does not start with a node, or on a bare node, and then with FORG0006 |
| XPathToken.EffectiveBooleanValue | venv/Lib/site-packages/elementpath/xpath_token.py:607-627 | the effective boolean value fails only with FORG0006 |
| XPathToken.BooleanValueIsEffective | venv/Lib/site-packages/elementpath/xpath_token.py:607-627 | `boolean_value` on a list is the effective boolean value; on a bare atomic it is the value of the singleton; a bare node raises FORG0006 |
| XPathToken.TypedToken.AddXsdType | venv/Lib/site-packages/elementpath/xpath_token.py:461-480 | adding a type returns it and stores the updated table |
| XPathToken.Added | venv/Lib/site-packages/elementpath/xpath_token.py:461-480 | the updated table has exactly the old names plus the added name, and every other name keeps its entry |
| XPathToken.AddedSpec | venv/Lib/site-packages/elementpath/xpath_token.py:461-480 | after adding, the name holds the type and everything it held before; no other name changes |
| XPathToken.AddedAgain | venv/Lib/site-packages/elementpath/xpath_token.py:461-480 | adding a type the name already holds changes nothing |
| XPathToken.AddedIdempotent | venv/Lib/site-packages/elementpath/xpath_token.py:461-480 | adding the same type twice is the same as adding it once |
| XPathToken.AddedSecond | venv/Lib/site-packages/elementpath/xpath_token.py:470-476 | a second, different type turns the entry into a list of both, in order |
| XPathToken.AddedNoRepeats | venv/Lib/site-packages/elementpath/xpath_token.py:461-480 | a type list never holds the same type twice |
| XPathToken.ErrorPrefix | venv/Lib/site-packages/elementpath/xpath_token.py:124-129 | the prefix is the first one bound to the XQuery error namespace, or "err" when none is |
| XPathFunctions.SelectInterval | venv/Lib/site-packages/elementpath/xpath2_functions.py:370-377 | keeping the positions of an interval gives the slice |
| XPathFunctions.SelectPrefix | venv/Lib/site-packages/elementpath/xpath2_functions.py:370-377 | the same, for every prefix of the sequence |
| XPathFunctions.Clamp | venv/Lib/site-packages/elementpath/xpath2_functions.py:335-346 | a clamped position lies within the sequence and leaves in-range positions unchanged |
| XPathFunctions.InsertBefore | venv/Lib/site-packages/elementpath/xpath2_functions.py:335-346 | with the position argument evaluated (the corrected behaviour), the generator loop yields the target up to the clamped position, then the inserts, then the rest of the target |
| XPathFunctions.InsertBeforeAsWritten | venv/Lib/site-packages/elementpath/xpath2_functions.py:335-346 | as written, the position is the token's value: any argument other than an integer literal raises TypeError, and a literal inserts at its clamped position without losing or adding items |
| XPathFunctions.InsertBeforeNegativePosition | venv/Lib/site-packages/elementpath/xpath2_functions.py:337 | `insert-before((1, 2, 3), -1, 9)` raises TypeError as written, where the evaluated position gives (9, 1, 2, 3) |
| XPathFunctions.InsertBeforeAgrees | venv/Lib/site-packages/elementpath/xpath2_functions.py:335-346 | on an integer literal, the code as written and the evaluated position insert at the same place |
| XPathFunctions.InsertionPointSpec | venv/Lib/site-packages/elementpath/xpath2_functions.py:335-346 | for an evaluated position: at or below 1 prepends; past the end appends; nothing is lost or added |
| XPathFunctions.Remove | venv/Lib/site-packages/elementpath/xpath2_functions.py:357-362 | `remove(target, position)`; RemoveSpec states what it drops |
| XPathFunctions.RemoveSpec | venv/Lib/site-packages/elementpath/xpath2_functions.py:357-362 | an in-range position drops exactly that item; any other position leaves the sequence unchanged |
| XPathFunctions.Reverse | venv/Lib/site-packages/elementpath/xpath2_functions.py:365-367 | item i of the result is item n-1-i of the input |
| XPathFunctions.ReverseReverse | venv/Lib/site-packages/elementpath/xpath2_functions.py:365-367 | reversing twice gives the input |
| XPathFunctions.IndexOf | venv/Lib/site-packages/elementpath/xpath2_functions.py:349-354 | `index-of` lists at most one position per item, and every listed position is 1-based and holds the value |
| XPathFunctions.IndexOfSpec | venv/Lib/site-packages/elementpath/xpath2_functions.py:349-354 | the result is increasing, each entry is a 1-based position holding the value, and every such position is listed |
| XPathFunctions.SubsequenceZeroLength | venv/Lib/site-packages/elementpath/xpath2_functions.py:370-377 | length 0 falls through to the open-ended branch as written: [10,20,30], start 2 gives [20,30]; the corrected function gives [] |
| XPathFunctions.SubsequenceAsWritten | venv/Lib/site-packages/elementpath/xpath2_functions.py:370-377 | `subsequence` as written, length tested for truthiness; SubsequenceZeroLength and SubsequenceAgrees state where it goes wrong |
| XPathFunctions.Subsequence | venv/Lib/site-packages/elementpath/xpath2_functions.py:370-377 | `subsequence` with the length tested against None; SubsequenceSlice states that it is a clamped slice |
| XPathFunctions.SubsequenceAgrees | venv/Lib/site-packages/elementpath/xpath2_functions.py:370-377 | the written and corrected `subsequence` agree for every length except 0 |
| XPathFunctions.SelectSame | venv/Lib/site-packages/elementpath/xpath2_functions.py:370-377 | position selection depends only on the kept positions |
| XPathFunctions.SubsequenceSlice | venv/Lib/site-packages/elementpath/xpath2_functions.py:370-377 | `subsequence` is the slice from the clamped start to the clamped end, and empty when the end is not past the start |
| XPathFunctions.DistinctValues | venv/Lib/site-packages/elementpath/xpath2_functions.py:319-332 | the loop that skips values already seen yields the values in order of first occurrence, without repeats |
| XPathFunctions.ZeroOrOne | venv/Lib/site-packages/elementpath/xpath2_functions.py:386-400 | passes sequences of at most one item unchanged, and otherwise raises FORG0003 |
| XPathFunctions.OneOrMore | venv/Lib/site-packages/elementpath/xpath2_functions.py:402-416 | passes non-empty sequences unchanged, and otherwise raises FORG0004 |
| XPathFunctions.ExactlyOne | venv/Lib/site-packages/elementpath/xpath2_functions.py:418-431 | passes singletons unchanged, and otherwise raises FORG0005 |
| XPathFunctions.YearMonthComponents | venv/Lib/site-packages/elementpath/xpath2_functions.py:698-714 | years*12 + months gives back the duration's months; the parts share its sign; \|months\| < 12 |
| XPathFunctions.DayTimeComponents | venv/Lib/site-packages/elementpath/xpath2_functions.py:716-749 | days, hours, minutes and seconds recompose the duration's seconds, share its sign and stay within their ranges |
| XPathFunctions.SplitSeconds | venv/Lib/site-packages/elementpath/xpath2_functions.py:716-749 | the day/hour/minute/second split of a non-negative count recomposes it |
| XPathFunctions.YearsFromDuration | venv/Lib/site-packages/elementpath/xpath2_functions.py:698-704 | empty exactly for an empty argument; the years carry the sign of the months |
| XPathFunctions.MonthsFromDuration | venv/Lib/site-packages/elementpath/xpath2_functions.py:707-713 | empty exactly for an empty argument; the months left over carry the sign of the months and lie strictly between -12 and 12 |
| XPathFunctions.DaysFromDuration | venv/Lib/site-packages/elementpath/xpath2_functions.py:716-722 | empty exactly for an empty argument; the days carry the sign of the seconds |
| XPathFunctions.HoursFromDuration | venv/Lib/site-packages/elementpath/xpath2_functions.py:725-731 | empty exactly for an empty argument; the hours carry the sign of the seconds and lie strictly between -24 and 24 |
| XPathFunctions.MinutesFromDuration | venv/Lib/site-packages/elementpath/xpath2_functions.py:734-740 | empty exactly for an empty argument; the minutes carry the sign of the seconds and lie strictly between -60 and 60 |
| XPathFunctions.SecondsFromDuration | venv/Lib/site-packages/elementpath/xpath2_functions.py:743-749 | empty exactly for an empty argument; the seconds carry the sign of the seconds and lie strictly between -60 and 60 |
| XPathFunctions.CodepointsToString | venv/Lib/site-packages/elementpath/xpath2_functions.py:578-581 | succeeds exactly when every codepoint is a Unicode scalar value, one character per codepoint |
| XPathFunctions.StringToCodepoints | venv/Lib/site-packages/elementpath/xpath2_functions.py:583-587 | one codepoint per character |
| XPathFunctions.CodepointsRoundTrip | venv/Lib/site-packages/elementpath/xpath2_functions.py:578-587 | string to codepoints and back gives the string |
| XPathFunctions.StringRoundTrip | venv/Lib/site-packages/elementpath/xpath2_functions.py:578-587 | valid codepoints to string and back give the codepoints |
| XPathFunctions.CodepointEqual | venv/Lib/site-packages/elementpath/xpath2_functions.py:605-614 | `codepoint-equal` gives the empty sequence exactly when either argument is empty |
| XPathFunctions.CodepointEqualSpec | venv/Lib/site-packages/elementpath/xpath2_functions.py:605-614 | when both arguments are given, the answer is their string equality |
| XPath2Parser.Comment | venv/Lib/site-packages/elementpath/xpath2_parser.py:243-264 | the nesting-level loop computes the comment text and the pieces used |
| XPath2Parser.Scan | venv/Lib/site-packages/elementpath/xpath2_parser.py:249-264 | a finished scan uses between 1 and all the pieces; a failed one raises XPST0003 |
| XPath2Parser.CommentText | venv/Lib/site-packages/elementpath/xpath2_parser.py:243-264 | there is no comment exactly when the symbol does not open one; a comment uses between 1 and all the pieces; failure is XPST0003 |
| XPath2Parser.CommentStep | venv/Lib/site-packages/elementpath/xpath2_parser.py:249-262 | one loop step: a close at level 1 ends the comment; any other piece is appended with its delimiter and moves the level |
| XPath2Parser.ShiftedEmpty | venv/Lib/site-packages/elementpath/xpath2_parser.py:249-262 | shifting by nothing leaves a scan result unchanged |
| XPath2Parser.ShiftedTwice | venv/Lib/site-packages/elementpath/xpath2_parser.py:249-262 | two shifts compose into one |
| XPath2Parser.ScanSpec | venv/Lib/site-packages/elementpath/xpath2_parser.py:243-264 | the comment ends at the first piece where nesting returns to 0, and the text is everything before the last `:)`; running out of input raises XPST0003 exactly when nesting never returns to 0 |
| XPath2Parser.ScanOk | venv/Lib/site-packages/elementpath/xpath2_parser.py:249-262 | success half of the above |
| XPath2Parser.ScanErr | venv/Lib/site-packages/elementpath/xpath2_parser.py:249-264 | failure half of the above |
| XPath2Parser.BalanceStep | venv/Lib/site-packages/elementpath/xpath2_parser.py:252-258 | the nesting of a prefix is the first piece's step plus the rest's |
| XPath2Parser.CommentSpec | venv/Lib/site-packages/elementpath/xpath2_parser.py:243-264 | no comment unless the symbol opens one; otherwise the `(: ... :)` text balances, and failure happens exactly when nesting never closes |
| XPath2Parser.Lifted | venv/Lib/site-packages/elementpath/xpath2_parser.py:709-718 | each item appended by the comma is a present value |
| XPath2Parser.CommaAsWritten | venv/Lib/site-packages/elementpath/xpath2_parser.py:709-718 | the written comma's results hold None exactly when some operand is None |
| XPath2Parser.Comma | venv/Lib/site-packages/elementpath/xpath2_parser.py:709-718 | the corrected comma holds exactly the items its operands denote |
| XPath2Parser.CommaEvaluate | venv/Lib/site-packages/elementpath/xpath2_parser.py:709-718 | the comma loop as written: lists extend the results; any other operand is appended, None included |
| XPath2Parser.CommaAppendsNone | venv/Lib/site-packages/elementpath/xpath2_parser.py:709-718 | `(1, () is ())` yields [1, None] as written, since the node comparison returns None for an empty left operand (xpath2_parser.py:786-787) |
| XPath2Parser.CommaAppend | venv/Lib/site-packages/elementpath/xpath2_parser.py:709-718 | the corrected comma is a homomorphism: the operands' concatenation gives the results' concatenation |
| XPath2Parser.CommaAgrees | venv/Lib/site-packages/elementpath/xpath2_parser.py:709-718 | without None operands, the written and corrected comma agree |
| XPath2Parser.Range | venv/Lib/site-packages/elementpath/xpath2_parser.py:813-823 | `to` with no upper bound gives the empty sequence, or FORG0006 when there is a context; an upper bound without a lower one raises TypeError; a range exactly when both bounds are given |
| XPath2Parser.RangeSpec | venv/Lib/site-packages/elementpath/xpath2_parser.py:813-823 | `a to b` is a, a+1, ..., b; it is empty exactly when a > b |
| XPath2Parser.Prepend | venv/Lib/site-packages/elementpath/xpath2_parser.py:489-494 | each binding gains the new first value |
| XPath2Parser.ExtendLength | venv/Lib/site-packages/elementpath/xpath2_parser.py:489-494 | one more variable multiplies the number of bindings |
| XPath2Parser.ExtendSound | venv/Lib/site-packages/elementpath/xpath2_parser.py:489-494 | every new binding is a value followed by an old binding |
| XPath2Parser.ExtendComplete | venv/Lib/site-packages/elementpath/xpath2_parser.py:489-494 | every value followed by every old binding is produced |
| XPath2Parser.ProductSpec | venv/Lib/site-packages/elementpath/xpath2_parser.py:489-494 | `product(*selectors)` has the product of the lengths as its size, and holds exactly the bindings that take one value per variable |
| XPath2Parser.ProductLength | venv/Lib/site-packages/elementpath/xpath2_parser.py:489-494 | size half of the above |
| XPath2Parser.ProductSound | venv/Lib/site-packages/elementpath/xpath2_parser.py:489-494 | soundness half of the above |
| XPath2Parser.ProductComplete | venv/Lib/site-packages/elementpath/xpath2_parser.py:489-494 | completeness half of the above |
| XPath2Parser.EvaluateQuantified | venv/Lib/site-packages/elementpath/xpath2_parser.py:482-501 | the loop over the bindings computes the quantified result |
| XPath2Parser.QuantifySpec | venv/Lib/site-packages/elementpath/xpath2_parser.py:482-501 | `some` is true exactly when some binding satisfies; `every` exactly when all do |
| XPath2Parser.QuantifiedEmpty | venv/Lib/site-packages/elementpath/xpath2_parser.py:482-501 | a variable with no values makes `some` false and `every` true |
| XPath2Parser.ProductEmpty | venv/Lib/site-packages/elementpath/xpath2_parser.py:489-494 | a variable with no values gives no bindings |
| XPath2Parser.ExtendNothing | venv/Lib/site-packages/elementpath/xpath2_parser.py:489-494 | extending no bindings gives none |
| XPath2Parser.Quantify | venv/Lib/site-packages/elementpath/xpath2_parser.py:491-501 | an answer equal to the quantifier (`some` true, `every` false) is backed by a binding whose test gives it; the other answer holds for every binding |
| XPath2Parser.Quantified | venv/Lib/site-packages/elementpath/xpath2_parser.py:482-501 | without a context the result is empty; an answer equal to the quantifier comes from some binding of the product |
| XPath2Parser.SingleNode | venv/Lib/site-packages/elementpath/xpath2_parser.py:782-795 | an operand is empty, one node, or FORG0006 |
| XPath2Parser.NodeCompare | venv/Lib/site-packages/elementpath/xpath2_parser.py:779-808 | the node comparison is empty exactly when the left operand is empty, or is one node and the right is empty; an answer needs one node on each side |
| XPath2Parser.FirstMetSpec | venv/Lib/site-packages/elementpath/xpath2_parser.py:796-808 | the document-order walk answers for whichever node it meets first, and answers nothing when it meets neither |
| XPath2Parser.NodeCompareSpec | venv/Lib/site-packages/elementpath/xpath2_parser.py:779-808 | `is` is identity; `<<` follows document order; `>>` is `<<` reversed; nodes outside the document raise FOCA0002 |
| XPath2Parser.NodeCompareEmpty | venv/Lib/site-packages/elementpath/xpath2_parser.py:782-795 | an empty operand gives the empty sequence; more than one item raises FORG0006 |
| XPath2Parser.EvaluateInstance | venv/Lib/site-packages/elementpath/xpath2_parser.py:553-582 | the loop over the items computes the `instance of` answer |
| XPath2Parser.InstanceFrom | venv/Lib/site-packages/elementpath/xpath2_parser.py:570-582 | true only when every item from the position has the type; an unknown type raises XPST0001 |
| XPath2Parser.InstanceSpec | venv/Lib/site-packages/elementpath/xpath2_parser.py:553-582 | `instance of` is true exactly when every item has the type and the count fits the occurrence indicator |
| XPath2Parser.InstanceOfEmpty | venv/Lib/site-packages/elementpath/xpath2_parser.py:555-559 | `empty-sequence()` matches exactly the empty sequence |
| XPath2Parser.CastableMatchesCast | venv/Lib/site-packages/elementpath/xpath2_parser.py:638-662 | `castable` is false exactly where `cast` raises XPTY0004, true exactly where `cast` gives empty, and both reach the conversion on the same inputs |
| XPath2Parser.CastCardinality | venv/Lib/site-packages/elementpath/xpath2_parser.py:638-662 | conversion is reached only for exactly one item; an empty result only for `cast` with `?` on an empty operand; a direct answer only for `castable` |
| XPath2Parser.CastCardinalitySpec | venv/Lib/site-packages/elementpath/xpath2_parser.py:638-662 | more than one item, or an empty operand without `?`, fails; empty with `?` gives empty; one item is converted |
| XPath2Parser.Intersect | venv/Lib/site-packages/elementpath/xpath2_parser.py:417-422 | `intersect` holds exactly the items in both operands |
| XPath2Parser.Except | venv/Lib/site-packages/elementpath/xpath2_parser.py:424-429 | `except` holds exactly the left items not in the right operand |
| XPath2Parser.IntersectExceptPartition | venv/Lib/site-packages/elementpath/xpath2_parser.py:417-429 | `intersect` and `except` split the left operand into disjoint parts |
| XsdXPath.NormalTag | venv/Lib/site-packages/xmlschema/xpath.py:316-317 | the tag `*` means no filter |
| XsdXPath.UnvisitedShrinks | venv/Lib/site-packages/xmlschema/xpath.py:312-314 | marking local elements as visited never grows the unvisited set |
| XsdXPath.ExtendsTrans | venv/Lib/site-packages/xmlschema/xpath.py:312-314 | the visited list only grows, across nested calls |
| XsdXPath.LocalListAppend | venv/Lib/site-packages/xmlschema/xpath.py:312-314 | appending an unvisited local element shrinks the unvisited set |
| XsdXPath.SafeIter | venv/Lib/site-packages/xmlschema/xpath.py:303-314 | every yielded component matches the tag, and a matching component comes first; the visited list only grows and holds local components; the walk starts at the component, holds only what it reaches, is closed (every global child walked, every local child visited, every matching component and reference yielded), and yields only walked components or references met on the way; no local component is walked or yielded twice or was visited before |
| XsdXPath.SafeIterChild | venv/Lib/site-packages/xmlschema/xpath.py:306-314 | one turn of the loop over the children keeps that walk invariant: a global child is walked, a matching reference is yielded without expansion, a new local child is recorded and walked, and a local child already visited is skipped |
| XsdXPath.WalkingStart | venv/Lib/site-packages/xmlschema/xpath.py:304-305 | before the children, the walk is the component alone, yielded when it matches |
| XsdXPath.WalkingStep | venv/Lib/site-packages/xmlschema/xpath.py:306-314 | a child handled with a sound walk of its own extends the invariant by that child |
| XsdXPath.ChildWalked | venv/Lib/site-packages/xmlschema/xpath.py:307-308 | a child walked recursively, from the visited list with the child appended when it is local, extends the invariant |
| XsdXPath.ChildSkipped | venv/Lib/site-packages/xmlschema/xpath.py:309-311 | a reference (yielded when it matches) or a local child already visited extends the invariant without walking |
| XsdXPath.WalkingFinish | venv/Lib/site-packages/xmlschema/xpath.py:303-314 | after the last child the walk is closed, the component itself included |
| XsdXPath.ClosureFinish | venv/Lib/site-packages/xmlschema/xpath.py:303-314 | a component whose children are all walked, visited or yielded joins the closure |
| XsdXPath.ReachesWithin | venv/Lib/site-packages/xmlschema/xpath.py:303-314 | a closed walk holds everything its start reaches |
| XsdXPath.CalleeLocals | venv/Lib/site-packages/xmlschema/xpath.py:312-314 | what a recursive walk yields is new to the caller's visited list |
| XsdXPath.LocalsAppend | venv/Lib/site-packages/xmlschema/xpath.py:312-314 | appending a walk whose local components are new keeps every local component once |
| XsdXPath.LocalsStep | venv/Lib/site-packages/xmlschema/xpath.py:305-314 | the loop keeps every local child seen so far visited |
| XsdXPath.RefsStep | venv/Lib/site-packages/xmlschema/xpath.py:309-311 | the loop keeps every matching reference child seen so far yielded |
| XsdXPath.Iter | venv/Lib/site-packages/xmlschema/xpath.py:296-319 | `iter(tag)` yields only matching components, the component itself first when it matches; it yields every matching component reachable through global and local components and every matching reference met on the way, nothing else, and no local component other than the start twice |
| XsdXPath.IterComplete | venv/Lib/site-packages/xmlschema/xpath.py:316-319 | starting with nothing visited, every reachable matching component and every matching reference of a reachable component is yielded |
| XsdXPath.IterSound | venv/Lib/site-packages/xmlschema/xpath.py:316-319 | starting with nothing visited, everything yielded is reachable or a reference child of a reachable component |
| XsdXPath.IterChildren | venv/Lib/site-packages/xmlschema/xpath.py:321-330 | exactly the matching direct children; FilterAppend, FilterOne and FilterCount state that they come in the children's order, each as often as it occurs |
| XsdXPath.Filter | venv/Lib/site-packages/xmlschema/xpath.py:328-330 | keeps exactly the matching ids, and is no longer than its input |
| XsdXPath.FilterAppend | venv/Lib/site-packages/xmlschema/xpath.py:328-330 | the matches of a concatenation are the matches of each part in turn, so `iterchildren` keeps the children's order |
| XsdXPath.FilterOne | venv/Lib/site-packages/xmlschema/xpath.py:328-330 | a single child is yielded exactly when it matches |
| XsdXPath.FilterCount | venv/Lib/site-packages/xmlschema/xpath.py:328-330 | a matching child is yielded as often as it occurs among the children, and no other id is yielded |
| XsdXPath.IterChildrenAll | venv/Lib/site-packages/xmlschema/xpath.py:325-330 | no tag, or `*`, yields every child in order |
| XsdXPath.EffectiveNamespaces | venv/Lib/site-packages/xmlschema/xpath.py:236-240 | there is always a default prefix; without a given map, the own non-empty prefixes are used, plus the XPath default |
| XsdXPath.GetXPathNamespaces | venv/Lib/site-packages/xmlschema/xpath.py:229-244 | the default namespaces updated with the effective map; a given map is filled in place with the default prefix |
| XsdXPath.XPathNamespacesSpec | venv/Lib/site-packages/xmlschema/xpath.py:229-244 | given prefixes override the defaults; a missing default prefix becomes the XPath default; untouched defaults keep their URIs |
| XsdXPath.Strip | venv/Lib/site-packages/xmlschema/xpath.py:247 | `strip()` leaves no whitespace at either end |
| XsdXPath.StripSpec | venv/Lib/site-packages/xmlschema/xpath.py:247 | the stripped path is a slice of the path with only whitespace outside it, and stripping twice is stripping once |
| XsdXPath.StripSlice | venv/Lib/site-packages/xmlschema/xpath.py:247 | the bounds of the kept slice, with every character before and after them whitespace |
| XsdXPath.RemovePositionsSpec | venv/Lib/site-packages/xmlschema/xpath.py:250 | removing tag positions leaves the path unchanged exactly when it has no `[digits]` after a word character |
| XsdXPath.RemovePositions | venv/Lib/site-packages/xmlschema/xpath.py:250 | removing positions from a suffix never makes it longer |
| XsdXPath.NormalizePath | venv/Lib/site-packages/xmlschema/xpath.py:246-250 | strip, add the schema root to a single-slash path, remove positions; AbsolutePath, NormalizeAbsolutePath and the examples state its results |
| XsdXPath.RemoveNoMatch | venv/Lib/site-packages/xmlschema/xpath.py:250 | a suffix with no position is copied unchanged |
| XsdXPath.RemoveShorter | venv/Lib/site-packages/xmlschema/xpath.py:250 | a suffix with a position gets shorter |
| XsdXPath.AbsolutePath | venv/Lib/site-packages/xmlschema/xpath.py:246-250 | a single-slash absolute path gets the schema root prepended, before positions are removed |
| XsdXPath.RemoveShift | venv/Lib/site-packages/xmlschema/xpath.py:250 | removal on a suffix not starting at `[` does not depend on what comes before it |
| XsdXPath.RemoveStep | venv/Lib/site-packages/xmlschema/xpath.py:250 | a position is skipped whole; any other character is copied |
| XsdXPath.NormalizeAbsolutePath | venv/Lib/site-packages/xmlschema/xpath.py:246-250 | " /a[1] " becomes "/{http://www.w3.org/2001/XMLSchema}schema/a" |
| XsdXPath.NormalizeTwoPositions | venv/Lib/site-packages/xmlschema/xpath.py:250 | in "a[1][2]" only the first position follows a word character, so "a[2]" results |
| XsdXPath.NormalizeDescendantPath | venv/Lib/site-packages/xmlschema/xpath.py:248-249 | a `//` path gets no schema root |
| XsdXPath.RemoveUntil | venv/Lib/site-packages/xmlschema/xpath.py:250 | text without `[` is copied unchanged |
| XsdXPath.Attributes.GetState | venv/Lib/site-packages/xmlschema/xpath.py:183-188 | the pickled state is the attribute dict without the lock, the parser and the tokens |
| XsdXPath.Attributes.SetState | venv/Lib/site-packages/xmlschema/xpath.py:190-192 | unpickling updates the dict with the state and gives a fresh lock |
| XsdXPath.PickleRoundTrip | venv/Lib/site-packages/xmlschema/xpath.py:183-192 | pickling then unpickling restores every attribute except the parser and tokens, and replaces the lock |
| XsdXPath.PrimitiveType | venv/Lib/site-packages/xmlschema/xpath.py:152-162 | the primitive type is anyType or a type with no further base |
| XsdXPath.PrimitiveTypeIdempotent | venv/Lib/site-packages/xmlschema/xpath.py:152-162 | the primitive type of a primitive type is itself |
| XsdXPath.PrimitiveTypeSpec | venv/Lib/site-packages/xmlschema/xpath.py:152-162 | a complex type maps to anyType, and a terminal simple type maps to itself |

## Left out

- Excel output, pandas DataFrames, the timer, the file-existence prompt and `print` are not modelled. main.py and functions.py (the GUI and file helpers) are not part of this model. The last two `print` calls in sonucParse.py appear only as the NameError they raise when their table was never bound.
- File parsing is modelled as a map from file names to parsed trees. A name missing from the map stands for a file the parser cannot open.
- `iterparse` hands elements to the strip loop in post-order. The model strips in pre-order. The only difference is which tags are already stripped when an unqualified tag raises, and that state is discarded.
- The flattened row tables include the row element's own column (its tag, with its text). The code does this; it does not drop the container. Only the Ozetbeyan row leaves out its line element.
- The Kiymet direct-children row is computed but never written to a sheet. The model keeps it and writes no sheet for it.
- Strings are sequences of characters. Whitespace, digit and word classes for path normalisation are ASCII only, where Python uses Unicode classes.
- XsdXPath.Strip: only the ASCII whitespace characters are stripped.
- XPathFunctions.CodepointsToString: rejects surrogate codepoints (0xD800-0xDFFF) with ValueError, because a Dafny string cannot hold them. Python's `chr` accepts them. Negative values and values above 0x10FFFF raise ValueError in both.
- XPathFunctions.DistinctValues: uses Dafny equality. Python's mixed-type equality, NaN handling and the collation argument are not modelled.
- Item matching by name (`is_matching`) is a plain name comparison. Namespace resolution of the tag is not modelled.
- The side effects of `some`/`every` on `context.variables` and of `instance of` on `context.item` are not modelled. Only the results are.
- XPath2Parser.Intersect and XPath2Parser.Except are stated as sets. The source returns the results in document order, and that order is not modelled.
- The comment scanner treats end of input as the XPST0003 error. `raw_advance` and the tokenizer are not part of this model.
- The kind-test branch of `instance of` (`node()`, `element()` and so on) is not modelled. Only the atomic-type branch is.
- `cast`/`castable` model only the cardinality and type-name checks. The conversion itself is a result value.
- Regular-expression, URI, date and time, float, collation and locale functions are not modelled.
- XsdXPath.SafeIter: the order in which components are yielded (pre-order) is not stated; the contracts speak of membership and of the first item only.
- XsdXPath.SafeIter: cycles through global elements terminate only through a rank the caller supplies. The source would raise RecursionError on such a cycle.
- XsdXPath.PrimitiveType: base-type chains are ranked for termination. The source would loop on a cyclic chain.
- The threading lock around the parser is a plain value. Locking and concurrency are not modelled.
- The XML, XSD and XQuery-errors namespace URIs are written out as constants. namespaces.py is not part of this model.
- XPathErrors.ShortcutCode: states that every shortcut raises a well-formed code, and ShortcutCodes that the codes are distinct. The message texts the shortcuts format are not modelled.
- XPathFunctions.SecondsFromDuration: the model keeps a duration's seconds as a whole number, while elementpath keeps a decimal, so fractional seconds (1.5 for `PT1.5S`) are not modelled. DaysFromDuration, HoursFromDuration, MinutesFromDuration and DayTimeComponents share this whole-second domain.
- Python's unbounded integers match Dafny's `int`, so no wrap-around is needed. The duration components apply `//` and `%` only to non-negative operands and negate the result themselves, so Dafny's Euclidean operators give the same values.

## Findings

| source | as written | input that shows it | evidently intended | confidence | as-written member | corrected member |
|---|---|---|---|---|---|---|
| venv/Lib/site-packages/elementpath/xpath2_functions.py:370-377 | `subsequence` tests the length argument for truthiness, so a length of 0 falls into the open-ended branch | `subsequence((10, 20, 30), 2, 0)` gives `(20, 30)` | a length of 0 gives the empty sequence | not executed | XPathFunctions.SubsequenceZeroLength | XPathFunctions.SubsequenceSlice |
| venv/Lib/site-packages/elementpath/xpath2_parser.py:709-718 | the comma guard tests `results is not None` (always true) where the operand `result` was meant, so a None operand is appended to the results | `(1, () is ())` gives a sequence that holds None, because the node comparison returns None when its left operand is empty (xpath2_parser.py:786-787) | None operands are skipped, and the comma is the concatenation of its operands | not executed | XPath2Parser.CommaAppendsNone | XPath2Parser.CommaAppend |
| venv/Lib/site-packages/elementpath/xpath2_functions.py:335-346 | `insert-before` reads its position as `self[1].value`, the token's value, instead of evaluating the argument as `remove` (:358) and `subsequence` (:372) do; only an unsigned integer literal has a number as its value | `insert-before((1, 2, 3), -1, 9)`: the unary minus token has no numeric value, so `value - 1` raises TypeError; likewise `$p` or `1 + 1` as the position | the position is evaluated, so -1 prepends and gives (9, 1, 2, 3) | not executed | XPathFunctions.InsertBeforeNegativePosition | XPathFunctions.InsertBefore |
