# opencontactbook: address resolution and column order

This project models the core of `data/contact.py` in Dafny.

`get_geoID` gives each contact of the address book an OpenStreetMap location:

1. It turns the `adr` column into a location hint (`geohint`) with a chain of column-wide rewrites.
2. For each row, it cuts the hint into one piece per address (`HOME: …`, `WORK: …`) and cleans each piece.
3. It looks each piece up through an ordered chain of Nominatim queries:
   - the piece alone;
   - the piece with its country name replaced by an ISO code;
   - shorter and shorter comma-separated suffixes;
   - the first component alone.
4. It writes the answers (`geoID`) and a flag (`exactlocation`) back to the row.

Between rows, it reports progress and polls a killswitch.

`cleanup_contact` ends by tidying spaces and leading commas in every cell. It then puts the columns in a fixed order.

The modules follow the program's structure:

| module | file | what it holds |
|---|---|---|
| `Wrappers` | `wrappers.dfy` | `Option` |
| `TextOps` | `text.dfy` | Python's `str.lower`, `str.strip`, `str.split`, `",".join` and `str.replace`, and regex run replacement |
| `Hint` | `hint.dfy` | the `geohint` rewrites of lines 178-191 |
| `Segment` | `segment.dfy` | the per-row decoding and mark removal (213-218), the split into addresses (221) and the piece cleanup (226-229) |
| `QueryKey` | `querykey.dfy` | `urlencode` with `quote_plus`, and the key normalisation of lines 235, 254, 273 and 287 |
| `Fallback` | `fallback.dfy` | the ordered lookups of one piece (232-293), including the suffix-window loop (259-279) |
| `Resolve` | `resolve.dfy` | one row: its pieces, their answers, the `exactlocation` flag and the written `geoID` value (209-298) |
| `Table` | `table.dfy` | the address book as a class whose columns `get_geoID` fills in place: the row loop, the killswitch and the progress messages (146-303) |
| `Columns` | `columns.dfy` | the cell rewrites of lines 118 and 120, and the column order of lines 130-138 |

The model reproduces the code where it is surprising:

- **The flag means "any".** `exactlocation` is true when *any* piece's unrestricted query was answered, not every piece's (lines 223, 240, 298).
- **Suffix windows.** Pass `i` of the suffix loop queries components `i+1 .. n-1` of the comma-split filtered text. Each component is stripped and they are joined by `,` (lines 262-267). There are `n - 1` passes, and none when there is one component.
- **Last fallback.** The last fallback queries the first component only, despite the comment "first and last" (lines 283-284).
- **Line 188 is a no-op.** It is not modelled as a rewrite, because it lacks `inplace=True`.
- **`strip("+")` never removes anything.** Every key begins `q=` and ends `json`, so the `strip("+")` of the key normalisation has no effect.
- **Commas can survive at the front.** A cleaned piece may still begin with a comma (`"\t,x"` gives `",x"`). This happens because the strip of line 226 does not remove tabs and the comma collapse of line 229 runs after it.
- **Removed marks can reappear.** Removing `(c)` can create a new `(c)`.

## Model

| member | source | states |
|---|---|---|
| `Hint.RemoveParentheticalNoPair` | data/contact.py:181 | after the parenthesis removal, no `(` is followed by a `)` on the same line |
| `Hint.RemoveParentheticalChars` | data/contact.py:181 | the removal introduces no character other than the replacement space |
| `Hint.RemoveParentheticalIdentity` | data/contact.py:181 | a text with no `(` and no `@` is unchanged |
| `Hint.RemoveParentheticalGreedy` | data/contact.py:181 | the greedy `.*` removes `(a)b(c)` as a whole, leaving one space |
| `Hint.RemoveParentheticalOneLine` | data/contact.py:181 | `.*` does not cross a line break, so `(\n)` stays as it is |
| `Hint.SeparatorRunIsOneSpace` | data/contact.py:184 | each maximal run of `-[]{}` becomes exactly one space, and the text around it is rewritten independently |
| `Hint.BreakRunIsOneComma` | data/contact.py:185 | each maximal run of `\n`/`\r` becomes exactly one `", "` |
| `Hint.LeadingCommaIff` | data/contact.py:191 | the leading-empty-element regex matches exactly when the hint starts with whitespace, a comma and at least one whitespace character |
| `Hint.DropLeadingCommaSpec` | data/contact.py:191 | the rewrite removes a prefix and nothing else: nothing when there is no leading empty element, otherwise whitespace around exactly one comma, ending in whitespace and leaving no whitespace at the front |
| `Hint.CleanHintHasNoSeparators` | data/contact.py:178-191 | the finished hint holds no `-`, `[`, `]`, `{`, `}`, `\n` or `\r` |
| `Table.ContactTable.PrepareHints` | data/contact.py:178-191 | every `geohint` cell is the cleaned copy of its `adr` cell; no other column changes |
| `Segment.DecodeAscii` | data/contact.py:213 | the decoded text is ASCII, and ASCII text is left as it is |
| `Segment.RemoveMarksSpec` | data/contact.py:216-218 | after the removals there is no `"` and no `@`; the result is the text with every `"` dropped, then `(c)` removed by the left-to-right scan, then every `@` dropped, so every other character stays in order; a text with none of the three comes back unchanged |
| `TextOps.RemoveAllMayLeavePattern` | data/contact.py:217 | removing `(c)` from `((c)c)` leaves `(c)` |
| `Segment.SplitTagsSpec` | data/contact.py:221 | `re.split` on `[A-Z]+: ` gives one more piece than there are tags; no piece contains a tag; interleaving the pieces with the tags gives the text back; each tag starts leftmost, so no piece before a tag ends with a capital |
| `Segment.CleanSegmentSpec` | data/contact.py:226-229 | a cleaned piece is empty exactly when the piece is made only of `" \n\r.;,:"`; it has no upper-case letter and no two adjacent commas; it ends with no edge character; it starts with a comma or a non-edge character |
| `Segment.CleanSegmentMayStartWithComma` | data/contact.py:226-229 | `"\t,x"` cleans to `",x"` |
| `Segment.CollapseCommasNoDouble` | data/contact.py:229 | after `re.sub(r"(\s?\,)+", ",", …)` no two commas are adjacent |
| `Segment.CommaRunIsOneComma` | data/contact.py:229 | each maximal match of `(\s?\,)+` becomes exactly one comma, and the text on either side of it is rewritten on its own |
| `Segment.CollapseCommasChars` | data/contact.py:229 | the comma collapse introduces no character |
| `Segment.CollapseCommasFixpoint` | data/contact.py:229 | a text with no blank-or-comma before a comma is unchanged |
| `Segment.CollapseCommasNotIdempotent` | data/contact.py:229 | a second pass can change the text: `"a  ,b"` → `"a ,b"` → `"a,b"` |
| `TextOps.LowerSpec` | data/contact.py:226 | lowering maps each capital `A`-`Z` to its small letter, keeps every other character and is idempotent |
| `TextOps.StripSpec` | data/contact.py:226 | `strip` gives a slice of the text with only stripped characters outside it; it gives an empty result exactly for a text made of the stripped characters; otherwise the result starts and ends with none of them and has only characters of the input |
| `QueryKey.NormalizeKeyNoDoublePlus` | data/contact.py:235 | a normalised key holds no `++` |
| `QueryKey.NormalizeKeyIdempotent` | data/contact.py:235 | normalising a normalised key changes nothing |
| `QueryKey.CacheKeyOnlyCollapses` | data/contact.py:233-235 | on a query string, `strip("+")` removes nothing; the key is the query string with its `+` runs collapsed |
| `QueryKey.CacheKeyIsCollapsedQuery` | data/contact.py:233-235 | the cache key of a query is the plain query string of the same query with its runs of spaces collapsed to one |
| `TextOps.SplitOnJoin` | data/contact.py:260 | `split(",")` undoes `",".join` of parts that hold no comma |
| `Fallback.SuffixWindow` | data/contact.py:262-267 | the nested loop builds pass `i`'s query as components `i+1 .. n-1`, each stripped, joined by `,` |
| `Fallback.Prepend` | data/contact.py:267 | putting component `a` in front of the suffix after it gives the suffix from `a` |
| `Fallback.WindowComponents` | data/contact.py:260-267 | the window of pass `i` splits back into exactly the stripped components after the `i`-th |
| `Fallback.WindowShape` | data/contact.py:262-267 | splitting the window of pass `i` on commas gives `n - 1 - i` components, the last of which is the stripped last component |
| `Fallback.WindowsShrink` | data/contact.py:262-267 | each pass's window is the window of the previous pass minus its first component |
| `Fallback.SegmentKeysCount` | data/contact.py:232-289 | a piece may look up `n + 2` keys: the unrestricted query, the filtered text, `n - 1` windows and the first component |
| `Fallback.FirstHitSpec` | data/contact.py:236-289 | the first answered key is answered and no key before it is; there is no hit exactly when no key is answered |
| `Fallback.HitPlaceSpec` | data/contact.py:236-289 | a piece gets an answer exactly when one of its keys is answered, and that answer is the first answered key's |
| `Fallback.FirstHitAppend` | data/contact.py:241-293 | trying two key lists in turn consults the second only when the first gets no answer |
| `Fallback.TryWindows` | data/contact.py:259-279 | the suffix loop looks up windows in order, stops at the first answer and returns it; `found` is whether there was one |
| `Fallback.TryFallbacks` | data/contact.py:248-293 | the `except` branch tries the filtered text, then the windows, then the first component, each with the country code, and stops at the first answer |
| `Fallback.ResolveSegment` | data/contact.py:232-293 | one piece looks up its candidates in the order above, and only up to the first answer; its flag is whether the unrestricted query was answered |
| `Resolve.PieceOutcomeSpec` | data/contact.py:225-293 | a piece is looked up exactly when it is not empty after cleaning; its flag is its unrestricted query being answered; a flagged piece's answer is that query's |
| `Resolve.FlagIff` | data/contact.py:223-298 | a row's flag is true exactly when some piece's unrestricted query was answered |
| `Resolve.PlacesBound` | data/contact.py:237-289 | each piece appends at most one answer, and a row with its flag set has at least one |
| `Resolve.ExactImpliesFound` | data/contact.py:294-298 | a row never has `exactlocation` true together with `"not found"`, and has no more answers than pieces |
| `Resolve.ResolvePiece` | data/contact.py:225-293 | one piece, as the source runs it, gives the outcome its specification defines |
| `Resolve.ResolveRow` | data/contact.py:209-298 | the per-row loop writes the list of the pieces' answers in piece order (or `"not found"`), the any-piece flag, and looks up exactly the keys of the pieces in order |
| `Table.FirstKilledAt` | data/contact.py:205-208 | the loop stops at the first row found killed |
| `Table.EventsShape` | data/contact.py:155-301 | the number of messages, the messages around the stopping row, and that no bar is wider than the table |
| `Table.ContactTable.WriteRow` | data/contact.py:209-298 | one row's `geoID` and `exactlocation` cells are written, and later rows are kept |
| `Table.ContactTable.RunRows` | data/contact.py:200-298 | rows before the first killed one are written and the rest are kept; each row reached is announced before the killswitch check |
| `Table.ContactTable.GetGeoID` | data/contact.py:146-303 | the hints are cleaned; rows before the first killed one get their answers and flags; that row and later rows are untouched; the progress messages are exactly those of a run stopped there; an empty table fails at the closing message |
| `Columns.SquashSpacesSpec` | data/contact.py:118 | no two spaces are adjacent afterwards, every other character is kept in order, a space remains exactly when there was one, and a second pass changes nothing |
| `Columns.SpaceRunIsOneSpace` | data/contact.py:118 | each maximal run of spaces becomes exactly one space, and the text on either side is rewritten on its own |
| `Columns.CommaToSpaceSpec` | data/contact.py:120 | a cell whose first non-blank character is a comma becomes one space followed by the rest of the cell after that comma and the blanks right after it (a rest that does not start with a blank); any other cell is unchanged |
| `Columns.LeadingCommaToSpaceKeepsText` | data/contact.py:120 | the rewrite drops exactly one comma and blanks |
| `Columns.LessEqTotal` | data/contact.py:130 | Python's string order is total |
| `Columns.LessEqTrans` | data/contact.py:130 | Python's string order is transitive |
| `Columns.LessEqAntisym` | data/contact.py:130 | Python's string order is antisymmetric |
| `Columns.SortedUnique` | data/contact.py:130 | two sorted sequences with the same elements are equal, so the model's sort is the one Python's `sorted` gives |
| `Columns.RemoveFirstSpec` | data/contact.py:134-135 | `list.remove` takes out one copy of the element and nothing else, and keeps a sorted list sorted |
| `Columns.SortRest` | data/contact.py:130-135 | the rest is sorted and holds the original columns less one copy of each forced name |
| `Columns.OrderColumns` | data/contact.py:130-138 | the columns are the eight forced ones in order, then the other original columns in sorted order, each exactly as often as in the original |
| `Columns.OrderColumnsDistinct` | data/contact.py:130-138 | with distinct original columns, the result names every original and every forced column exactly once and no other |

## Left out

- The loading of vCard files (`list_vcf_in_directory`) and the frame operations `dropna`, `fillna`, `astype` and `reset_index`. These are I/O and pandas plumbing. The frame is a sequence of rows, and `reindex` is the column list it is given.
- The vCard-tag regexes of lines 114 and 116. They depend on backtracking regex semantics over the tag syntax of the vobject library.
- The reachability probe of lines 159-164 and the message it sends when Nominatim cannot be reached (line 163). It is network I/O.
- `Nominatim.fetch_cache_or_web`: its module is not part of this model. Its answers are a map from key to result list. A missing key or an empty list stands for the exception the `[0]` raises.
- `GeoSpellChecker.get_country_code_from_text`: its module is not part of this model. It is a function parameter returning the code and the filtered text.
- `unidecode`: a foreign library. `Segment.Decode` keeps ASCII characters and drops the rest. This is exact on ASCII input, which the model assumes; transliteration of other characters is not modelled.
- `json.dumps` of the result list: the written value is the list itself (`Resolve.GeoId`).
- `str.lower` changes ASCII letters only. Unicode case mapping is not modelled; after line 213 the text is ASCII.
- Line 188 is not a rewrite, because the source discards its result.
- Qt signal delivery and the thread safety of the killswitch, which are concurrency. The killswitch is the per-row sequence of its states when each row is reached. Progress is the list of messages sent, as when a `progress` object is given; without one, nothing is sent.
- The `print` of line 293: console output.
- The `NameError` of line 301 on an empty table appears only as `failed` in `Table.ContactTable.GetGeoID`, not as an exception.
- `Hint.RemoveParentheticalNoPair`: it speaks of `(` and `)` only. That the escaped markers `@ESCAPEDLEFTPARENTHESIS@` and `@ESCAPEDRIGHTPARENTHESIS@` leave no pair behind is not stated; they are modelled, and `@` is removed later (line 218).
- `Fallback.KeyOf`: the fallback lemmas take the key function as a parameter. The row and table use `QueryKey.CacheKey`.
