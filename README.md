# linklist.php — a verified model of the flat-file link directory

`linklist.php` keeps a small link directory in plain text files:

- `categories.txt` holds one `id TAB name` line per category, in insertion order.
- Each category has its own link file, `links_<id>.txt`, with one JSON-encoded link record per line.
- Every mutation reads a whole file into a PHP ordered array, changes one key, and rewrites the whole file.
- `render_linklist` selects categories, sorts each category's links with one of three comparators, truncates them with `array_slice`, and emits escaped markup.

This project models that core in Dafny and proves properties of it.

- `PhpStrings` models the PHP string primitives the code relies on:
  - `trim` and `rtrim` with explicit character sets;
  - truthiness, where "" and "0" are falsy;
  - `strtolower` restricted to ASCII;
  - `strcmp`/`strcasecmp` and `<=>`;
  - decimal formatting of the collision counter.
- `TextLines` models `fgets` over file contents, together with the `fwrite` loop that writes a line plus LF.
- `OrderedMap` models a PHP array with string keys as a sequence of pairs:
  - `$a[$k] = $v` replaces the value in place, or appends a new key;
  - `unset` cuts the entry out.
- `Html` models `h`, which is `htmlspecialchars` with `ENT_QUOTES`, and the decoding it is the inverse of.
- `Slug` models `slugify`.
- `CategoryFile` and `LinkFile` model the two file formats: what a write leaves in a file, and what a read makes of it.
- `Query` models the pure parts of `render_linklist`:
  - category selection;
  - the `usort` comparator closure and the sort;
  - `array_slice`;
  - the per-item description and pin decisions;
  - the structure of the emitted sections.
- `Store` holds the class `LinkList`.
  - Its fields are the contents of `categories.txt` and the map of link files present in the data directory.
  - It has one method per function of the source, each with the source's loops, proved against the file-format functions.
  - Next to the class sit the lemmas that compose each mutation with the file round trips ("read-back" lemmas).
  - Those lemmas prove what a later read returns, and that nothing else changes.

Quirks of the code that the model states rather than fixes:

- **Empty slug.** A name with no ASCII letter or digit slugifies to "".
  - `add_category` stores it as the line `TAB name`, which `read_categories` drops.
  - `add_category` also creates `links_.txt`, so the next such name gets the id `-2`.
  - So `add_category` can return the empty id. The model keeps that behaviour (`Store.AddCategoryReadBack`, `Store.EmptyIdEntryDropped`).
- **Rename to "0".** An empty new name keeps the old one, and so does "0".
  - The code's `?:` treats both "" and "0" as falsy, so renaming a category to "0" keeps its name.
  - The model follows the code (`Store.RenamedTo`, `Store.RenameCategoryReadBack`).
- **Ids "" and "0".** `read_links` drops a record whose id is "" or "0", because `empty()` treats both as empty (`LinkFile.EmptyId`).
- **Negative limit.** `array_slice` with a negative length drops that many links from the end (`Query.ArraySlice`).

## Model

| member | source | states |
|---|---|---|
| PhpStrings.TrimIsSlice | linklist.php:110 | `trim` returns a contiguous slice of its input; every character it removes is in the trim set, and the result neither starts nor ends with one |
| PhpStrings.StrcmpAntisymmetric | linklist.php:249 | swapping the arguments of `strcmp` negates its sign |
| PhpStrings.StrcmpTransitive | linklist.php:249 | `strcmp` order is transitive, so `strcasecmp` gives `usort` a consistent order |
| PhpStrings.NatToStringLength | linklist.php:116 | a counter of at least 10^k has more than k decimal digits, which bounds the collision probe |
| TextLines.LinesSingle | linklist.php:80-81 | no line `fgets` returns, once its LF is stripped, holds another LF |
| TextLines.LinesConcat | linklist.php:80 | reading two files written one after the other gives the lines of the first, then those of the second |
| TextLines.LinesUnlines | linklist.php:80-81 | `fgets` over what the `fwrite` loop wrote, one line plus LF each, yields exactly the written lines |
| OrderedMap.Put | linklist.php:85 | `$a[$k] = $v`: `$a[$k]` then holds `$v`, every other key's value is unchanged, and an existing key keeps its position while a new key goes last |
| OrderedMap.Remove | linklist.php:137 | `unset($a[$k])`: the key is gone, every other key keeps its value, and the size drops by one exactly when the key was present |
| Html.Escape | linklist.php:44 | the output of `h` contains no `<`, `>`, `"` or `'`, and is never shorter than its input |
| Html.EscapeAmpersands | linklist.php:44 | no `&` is left raw: every `&` in the output of `h` opens one of the five entities `&amp;`, `&lt;`, `&gt;`, `&quot;`, `&#039;`; with `Html.Escape`'s ensures and `Html.EscapeRoundTrip` this determines `h` completely |
| Html.EscapeRoundTrip | linklist.php:44 | decoding the five entities restores the original text, so `h` loses nothing |
| Html.EscapePlainText | linklist.php:44 | text without any of the five special characters passes through `h` unchanged |
| Slug.CollapseRuns | linklist.php:47 | the replacement of non-alphanumeric runs leaves only `a-z`, `0-9` and single hyphens, keeps every letter and digit in order, is empty only for empty input, and begins with a hyphen exactly when the input begins outside `a-z0-9` |
| Slug.CollapseRunsLast | linklist.php:47 | the replacement ends with a hyphen exactly when the input ends outside `a-z0-9` |
| Slug.WordScanCollapse | linklist.php:47 | replacing each run of non-`a-z0-9` characters by one hyphen keeps the words (`Slug.WordScan`): the same maximal `a-z0-9` runs, in the same order |
| Slug.SlugifyShape | linklist.php:45-49 | a slug contains only `a-z`, `0-9` and `-`, never starts or ends with `-`, and never contains `--` |
| Slug.SlugifyKeepsLettersAndDigits | linklist.php:45-49 | the letters and digits of a slug are exactly those of the lower-cased name, in order |
| Slug.SlugifyJoinsWords | linklist.php:45-49 | a slug is the maximal runs of `a-z0-9` in the lower-cased name (`Slug.Words`), joined by single hyphens |
| Slug.SlugifyEmpty | linklist.php:45-49 | a slug is empty exactly when the lower-cased name has no ASCII letter or digit |
| CategoryFile.ParseStorable | linklist.php:75-91 | whatever `categories.txt` holds, the map `read_categories` returns has unique, non-empty, TAB- and LF-free ids and non-empty names not ending in CR |
| CategoryFile.ParseSerialize | linklist.php:75-107 | reading back what `write_categories` wrote gives the same ordered id→name map, for non-empty TAB- and LF-free ids and non-empty, LF-free names not ending in CR |
| CategoryFile.ReadWriteStable | linklist.php:75-107 | rewriting what was read and reading it again gives the same map |
| LinkFile.ParseFileStorable | linklist.php:159-174 | a missing link file reads as the empty map, and every map read has unique keys equal to their records' non-empty ids |
| LinkFile.SkippedLineInvisible | linklist.php:166-169 | a blank line, an undecodable line, or a record with id "" or "0" changes nothing in what is read, wherever it stands |
| LinkFile.ParseSerialize | linklist.php:159-190 | reading back what `write_links` wrote gives the same ordered map, for any codec whose encoding decodes to its record on one line |
| Query.PrecedesTotal | linklist.php:248-255 | each of the three comparators orders any two links one way or the other |
| Query.PrecedesTransitive | linklist.php:248-255 | each of the three comparators orders links transitively |
| Query.SortLinks | linklist.php:248-255 | the sorted links are a permutation of the category's links, in comparator order |
| Query.SortedMeaning | linklist.php:248-255 | `alpha` sorts by title, ascending and ASCII case-insensitive; `new` sorts by `updated`, descending; any other value puts pinned links first, then sorts by `updated`, descending |
| Query.SelectCategories | linklist.php:243 | a truthy category gives that id alone if it exists and nothing otherwise; a null or falsy category gives every id in file order |
| Query.ArraySlice | linklist.php:256 | `array_slice($s, 0, $n)` is a prefix: the first `n` elements for `n >= 0`, all but the last `-n` for `n < 0`, clipped to the list |
| Query.OrderedLinksSpec | linklist.php:246-256 | a category's listing is a prefix of its sorted links: all of them for a null or zero limit, at most `limit` for a positive one, all but the last `-limit` for a negative one |
| Query.RenderItemFaithful | linklist.php:261-269 | an item's link and text decode back to the record's url and title; a description appears exactly when it is asked for and non-empty; the pin marker appears exactly for pinned links |
| Query.RenderItemsIndex | linklist.php:261-271 | a section has one item per listed link, the k-th rendering the k-th link |
| Query.EmitItems | linklist.php:261-271 | the loop over a category's links emits exactly the section's items |
| Store.CatFileInjective | linklist.php:70 | different category ids never share a link file |
| Store.FirstFreeUnique | linklist.php:114-117 | at most one id is the first free candidate, so the collision probe is deterministic |
| Store.CollisionTakesSuffixTwo | linklist.php:114-117 | a name whose slug is taken while `slug-2` is free gets the id `slug-2` |
| Store.FirstFreeShape | linklist.php:113-117 | the id the probe settles on holds only `a-z`, `0-9` and `-` |
| Store.PageSections | linklist.php:245-273 | the page has one section per selected category, in selection order; each is headed by that category's escaped name and holds the listing of that category's own link file |
| Store.AddCategoryReadBack | linklist.php:109-124 | after `add_category`, reading back gives the old categories followed by the new (id, trimmed name) pair; with an empty id, the old categories alone |
| Store.EmptyIdEntryDropped | linklist.php:84 | an entry written with an empty id is dropped when the file is read back |
| Store.RenameCategoryReadBack | linklist.php:126-132 | after `rename_category`, reading back gives the same categories in the same order, only that entry's name replaced; a new name that trims to "" or "0" leaves the map as it was |
| Store.RenameToSameNameIsIdentity | linklist.php:126-132 | when `categories.txt` was written by `write_categories`, reading it, renaming a category to its current, trimmed name and writing it back leaves the file byte-identical |
| Store.DeleteCategoryReadBack | linklist.php:134-143 | after `delete_category`, reading back gives the other categories in their order, the deleted category's links read as empty, and every other category's links are unchanged |
| Store.AddLinkReadBack | linklist.php:194-208 | after `add_link` with a fresh id, reading back gives the old links and then the new record, whose `created` and `updated` both equal `now` |
| Store.UpdateLinkReadBack | linklist.php:210-220 | after `update_link`, reading back gives the same links in the same order, only the target record changed; it keeps its id and `created`, and its `updated` is `now` |
| Store.DeleteLinkReadBack | linklist.php:222-228 | after `delete_link`, reading back gives the other links in their order |
| Store.LinkList.ReadCategories | linklist.php:75-91 | the `fgets` loop builds exactly the map `CategoryFile.Parse` gives for the file's contents |
| Store.LinkList.WriteCategories | linklist.php:93-107 | after the truncate-and-write loop, the file holds exactly `CategoryFile.Serialize` of the map |
| Store.LinkList.FreeId | linklist.php:113-117 | the probing loop ends, on `slug` if it is free, otherwise on `slug-N` for the smallest N >= 2 that is neither a category id nor has a link file |
| Store.LinkList.AddCategory | linklist.php:109-124 | a blank name changes nothing and yields no id; otherwise the first free id is chosen, the pair (id, trimmed name) is appended to the file, and an empty link file for it is created |
| Store.LinkList.RenameCategory | linklist.php:126-132 | an unknown id returns false and writes nothing; otherwise only that entry's name is replaced, by the trimmed new name unless it is falsy |
| Store.LinkList.DeleteCategory | linklist.php:134-143 | an unknown id returns false and changes nothing; otherwise the entry is removed and its link file is deleted |
| Store.LinkList.ReadLinks | linklist.php:159-174 | the `fgets` loop builds exactly the map `LinkFile.ParseFile` gives, which is empty for a missing file |
| Store.LinkList.WriteLinks | linklist.php:176-190 | after the loop, the category's link file holds one encoded record per line, and no other file changes |
| Store.LinkList.AddLink | linklist.php:194-208 | the category's link file is rewritten with the new record, with trimmed fields and `created == updated == now`, stored under its id |
| Store.LinkList.UpdateLink | linklist.php:210-220 | an absent id returns false and writes nothing; otherwise only the target record's title, url, desc, pin and updated change |
| Store.LinkList.DeleteLink | linklist.php:222-228 | an absent id returns false and writes nothing; otherwise only the target record is removed |
| Store.LinkList.RenderLinkList | linklist.php:233-281 | the nested loops emit exactly the page of sections `Store.Page` describes for the selected categories |
| Store.LinkList.RenderCategory | linklist.php:245-273 | the body of the loop over categories emits that category's section: its escaped display name and its sorted, truncated items |

## Left out

- HTTP, session, CSRF, login, the admin forms, the `?api` and `?admin` dispatch, and the demo page are not modelled. They are request handling and user interface, with no state of their own beyond what the store operations do.
- The data directory bootstrap, `flock`, `chmod`, `fflush`, and the `RuntimeException` thrown when a file cannot be opened or locked are not modelled. Every write succeeds in the model, and files are modelled as their contents.
- `json_encode` and `json_decode` are not modelled. They enter as the class's `encode` and `decode` function values. The link-file round trip assumes an encoding that decodes to its record and fits on one line (`LinkFile.LineCodec`).
- Records with missing or extra JSON fields, or with non-string or non-integer values, are not modelled. A decoded record always has all seven fields.
- `uuid()` and `time()` are parameters of `AddLink` and `UpdateLink`. The methods overwrite on an id collision, as `$items[$id] = …` does. `Store.AddLinkReadBack` requires a fresh id that is neither "" nor "0", which `uuid()`'s 16 hex digits provide.
- Store.AddCategoryReadBack: assumes the trimmed name holds no LF. The code accepts such a name, and its line then splits when read back.
- Store.RenameCategoryReadBack: assumes the trimmed new name holds no LF, for the same reason.
- `render_linklist`'s option handling is not modelled. This covers `?? null`, `!empty($opts['show_desc'])` and `(int)$opts['limit']`. Category, show-desc flag, limit and order arrive as typed parameters.
- The HTML tags, attributes and CSS literals, and `nl2br`, are not modelled. Rendering is modelled as sections of items holding the escaped strings and the two per-item decisions.
- Characters stand for the bytes PHP works on, and UTF-8 validity is not modelled. So the `ENT_SUBSTITUTE` handling of invalid UTF-8 in `h` is left out.
- `json_encode` returns false on malformed UTF-8. `write_links` then writes an empty line, which `read_links` skips, so such a link is lost. The assumed `LinkFile.LineCodec` round trip hides this.
- PHP's conversion of numeric-string array keys to integers is not modelled. It changes neither order nor lookup here.
- Query.SortLinks: proves the result sorted and a permutation. It does not claim the same order as PHP's `usort` among links the comparator ranks equal. The model's insertion sort keeps such links in file order.
- `strtolower` is modelled for ASCII letters only, which is what it changes since PHP 8.2.
