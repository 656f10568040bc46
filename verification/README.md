# JSON-to-CSV converter core, modelled in Dafny

This project models the two pieces of logic in the converter that do real work:

- **The mapper** (`JsonToCsvMapper`). It turns each parsed JSON row into one
  insertion-ordered flat map from dotted key paths to strings.
  - Nested objects give keys like `person.address.city`.
  - A list becomes one `|`-joined string at the list's own path.
  - An object or list inside a list is written inline as `k:v,k:v`.
  - `null` writes nothing.
- **The writer's table logic** (`CsvFileWriter.writeCsv`, without the file and
  CSV-library calls):
  - the argument checks;
  - header inference, which is the first-seen union of the rows' keys;
  - projecting each row onto the headers, with `""` for a missing or null value.

Files:

| file | module | content |
|---|---|---|
| `wrappers.dfy` | `Wrappers` | `Option` (Java `null`), `Result`, the `IllegalArgument` error |
| `seqs.dfy` | `Seqs` | insertion-ordered sets as sequences (`LinkedHashSet.add`/`addAll`) and their laws |
| `text.dfy` | `Text` | `String.join`, decimal `toString` of integers, and their inverses `Split`/`ParseInt` |
| `assoc.dfy` | `Assoc` | `LinkedHashMap<String, V>` as an association list: `Keys`, `Get`, `Put` |
| `json.dfy` | `Json` | the parsed JSON value |
| `flattener.dfy` | `Flattener` | `mapToFlatRows`, `flattenMap`, `mapToInlineString`, and what they guarantee |
| `csv_writer.dfy` | `CsvWriter` | `writeCsv`'s checks, header inference and row projection |
| `scenarios.dfy` | `Scenarios` | worked examples, and the mapper's rows fed to the writer |

Modelling choices:

- A flat map is a list of `(key, value)` pairs. `Put` has `LinkedHashMap.put` semantics:
  - storing to a key already present replaces its value in place;
  - a new key is appended at the end.

  So a top-level key `"a.b"` and a nested path `a` → `b` collide. The later store wins, at
  the earlier key's position (`Scenarios.KeyCollisionExample`).
- Key order and header order are the same concept: an insertion-ordered set
  (`Seqs.AddAll`). The keys of a flattened row are the row's leaf paths, each once, in
  depth-first first-seen order. The inferred headers are the rows' keys, each once, in
  first-seen order.
- Errors are `Failure(IllegalArgument(message))` results, with the source's messages.
- A `null` argument is `None`, and so is a `null` row or value in the writer.

Two behaviours of the code worth knowing:

- The mapper's rows are maps or `null`, as the element type of its list parameter
  requires; `MapToFlatRows` demands the same of its input. A `null` row is not refused:
  it flattens to an empty flat row.
- Header inference does not fail when the rows exist but have no keys. The inferred
  header line is then empty and the call succeeds. Only an empty row list without
  supplied headers is refused.

## Model

| member | source | states |
|---|---|---|
| Seqs.AddAllFacts | src/main/java/com/converter/io/CsvFileWriter.java:39-45 | adding keys to an insertion-ordered set keeps the earlier elements in front and unchanged, yields exactly the union of the elements, and never duplicates an element |
| Seqs.AddAllFirstSeen | src/main/java/com/converter/io/CsvFileWriter.java:11-13 | of two elements of the resulting set, the one listed first is the one whose first occurrence in the input stream comes first |
| Seqs.AddAllConcat | src/main/java/com/converter/io/CsvFileWriter.java:40-44 | adding the keys of one row after another gives the same set as adding their concatenation |
| Text.SplitJoin | src/main/java/com/converter/io/JsonToCsvMapper.java:78 | `String.join` with a one-character separator can be undone by splitting at that character, for at least one part and when no part contains the separator |
| Text.ParseIntToString | src/main/java/com/converter/io/JsonToCsvMapper.java:79-81 | the decimal text of an integral number reads back as that number |
| Assoc.Put | src/main/java/com/converter/io/JsonToCsvMapper.java:78-81 | after `put(k, v)`, `k` reads `v` and every other key reads what it read before; an existing key keeps its position and a new key is appended |
| Assoc.GetDistinctAt | src/main/java/com/converter/io/CsvFileWriter.java:62 | in a map without repeated keys, `get` of the key of entry `i` returns entry `i`'s value |
| Assoc.GetSomeIffKey | src/main/java/com/converter/io/CsvFileWriter.java:62 | `get(k)` finds a value exactly when `k` is among the map's keys |
| Flattener.Flatten | src/main/java/com/converter/io/JsonToCsvMapper.java:50-83 | keys outside the subtree of the prefix keep their values. `null` leaves the accumulator unchanged. A scalar stores exactly the key `prefix`, holding its `toString()`; a list stores exactly the key `prefix`, holding its element texts joined with `\|` (`""` for an empty list). In both cases every other key keeps its value, and `prefix` is appended unless already present |
| Flattener.FlattenMembers | src/main/java/com/converter/io/JsonToCsvMapper.java:56-61 | flattening an object's members touches only keys inside the object's subtree |
| Flattener.ElementTexts | src/main/java/com/converter/io/JsonToCsvMapper.java:65-77 | a list yields one text per element, in element order; each is `""` for `null`, the `toString()` of a scalar, or the inline text of an object or list flattened at the empty path |
| Flattener.MapToFlatRows | src/main/java/com/converter/io/JsonToCsvMapper.java:29-40 | a null row list fails with "rows cannot be null"; otherwise, for rows that are maps or `null`, there is exactly one flat row per input row, in input order, each flattened from the empty prefix into a fresh map |
| Flattener.ChildUnderParent | src/main/java/com/converter/io/JsonToCsvMapper.java:59 | a member's path `p.k` (or `k` at the top) and everything beneath it lie in the subtree of `p` |
| Flattener.FlattenKeyOrder | src/main/java/com/converter/io/JsonToCsvMapper.java:50-83 | the result's keys are the accumulator's keys, followed by the value's leaf paths that are new, in depth-first first-seen order |
| Flattener.MemberKeyOrder | src/main/java/com/converter/io/JsonToCsvMapper.java:56-61 | the same key-order law for the loop over an object's members |
| Flattener.LeafPathsUnderPrefix | src/main/java/com/converter/io/JsonToCsvMapper.java:56-61 | every leaf path under a prefix `p` lies in `p`'s subtree |
| Flattener.MemberLeafPathsUnderPrefix | src/main/java/com/converter/io/JsonToCsvMapper.java:58-61 | every leaf path of an object's members under `p` lies in `p`'s subtree |
| Flattener.FlattenAddsOnlyUnderPrefix | src/main/java/com/converter/io/JsonToCsvMapper.java:56-61 | under a non-empty prefix `p`, the accumulator's keys stay first and in place, and every added key is `p` or starts with `p.` |
| Flattener.FlattenRowKeys | src/main/java/com/converter/io/JsonToCsvMapper.java:33-37 | a flat row has no repeated key and holds exactly the row's leaf paths, in the order the depth-first walk first reaches them |
| Flattener.NullMembersIgnored | src/main/java/com/converter/io/JsonToCsvMapper.java:51-54 | dropping the `null`-valued members of an object does not change its flattening |
| Flattener.ListEntrySplitsIntoElements | src/main/java/com/converter/io/JsonToCsvMapper.java:62-78 | a non-empty list whose element texts have no `\|` can be read back from its entry: splitting at `\|` gives the element texts |
| Flattener.InlineSplitsIntoPairs | src/main/java/com/converter/io/JsonToCsvMapper.java:89-98 | the inline text of a non-empty map without `,` or `:` in keys and values splits at `,` into one piece per entry, in order, and each piece splits at `:` into that entry's key and value |
| Flattener.FlatRowIsFixedPoint | src/main/java/com/converter/io/JsonToCsvMapper.java:56-81 | flattening is the identity on rows that are already flat: a row of string values without repeated keys comes back with the same keys, values and order |
| CsvWriter.KeyStreamMembers | src/main/java/com/converter/io/CsvFileWriter.java:39-44 | a key occurs in the stream of row keys exactly when some non-null row has it |
| CsvWriter.InferHeaders | src/main/java/com/converter/io/CsvFileWriter.java:37-46 | the header loop computes the first-seen union of the rows' keys (`Seqs.Dedup` of the key stream), and it holds no key twice |
| CsvWriter.InferredHeadersUnion | src/main/java/com/converter/io/CsvFileWriter.java:39-44 | a key is an inferred header exactly when some non-null row has it |
| CsvWriter.InferredHeadersOrder | src/main/java/com/converter/io/CsvFileWriter.java:11-13 | of two inferred headers, the one listed first is met first when reading the rows in order and each row's keys in order |
| Seqs.DedupFacts | src/main/java/com/converter/io/CsvFileWriter.java:39-45 | the first-seen union of a stream has no repeated element, holds exactly the stream's elements, and lists them in order of first occurrence |
| CsvWriter.AddKeys | src/main/java/com/converter/io/CsvFileWriter.java:40-44 | adding a row's keys to the header set yields the insertion-ordered union of the headers so far and the row's keys |
| CsvWriter.InferStep | src/main/java/com/converter/io/CsvFileWriter.java:40-44 | the headers after one more row are the headers before it with that row's keys added |
| CsvWriter.ProjectRow | src/main/java/com/converter/io/CsvFileWriter.java:60-64 | a projected line has one field per header; field `i` is the text of the row's value for header `i`, or `""` when the row is null or the key is absent or null |
| CsvWriter.ProjectOwnKeys | src/main/java/com/converter/io/CsvFileWriter.java:60-64 | projecting a row onto its own keys gives back its values in its own order, `""` for a null value |
| CsvWriter.ProjectRows | src/main/java/com/converter/io/CsvFileWriter.java:59-64 | one projected line per row, in row order, each with one field per header holding that row's text for the header |
| CsvWriter.Tabulate | src/main/java/com/converter/io/CsvFileWriter.java:55-64 | the table is the header line followed by one projected line per row, so it has one line more than there are rows |
| CsvWriter.WriteCsv | src/main/java/com/converter/io/CsvFileWriter.java:26-66 | a null row list fails with "Rows cannot be null". An empty row list without supplied headers fails with "Rows empty and headers not provided.". Every other call succeeds with `rows+1` lines: supplied non-empty headers verbatim (otherwise the inferred ones) first, then each row projected onto them, in row order |
| Scenarios.FieldOfFlatRow | src/main/java/com/converter/io/CsvFileWriter.java:62-63 | a column of a flattened row reads the text stored under that key, or `""` when the row lacks it |
| Scenarios.NestedObjectExample | src/main/java/com/converter/io/JsonToCsvMapper.java:14-16 | `{"id":"1","person":{"name":"Ana","address":{"city":"MX"}}}` flattens to `id`, `person.name`, `person.address.city` holding `1`, `Ana`, `MX` |
| Scenarios.ScalarListExample | src/main/java/com/converter/io/JsonToCsvMapper.java:62-78 | `{"tags":["a","b","c"]}` flattens to the single entry `tags` = `a\|b\|c` |
| Scenarios.ObjectInListExample | src/main/java/com/converter/io/JsonToCsvMapper.java:67-71 | `{"items":[{"k":"v"}]}` flattens to the single entry `items` = `k:v` |
| Scenarios.ListInListExample | src/main/java/com/converter/io/JsonToCsvMapper.java:67-71 | a list nested in a list is flattened at the empty path, so `{"m":[[1,2]]}` gives `m` = `:1\|2` |
| Scenarios.NullMemberExample | src/main/java/com/converter/io/JsonToCsvMapper.java:51-54 | `{"id":"1","nick":null}` has the key `id` and no key `nick` |
| Scenarios.EmptyListExample | src/main/java/com/converter/io/JsonToCsvMapper.java:65-78 | `[]`, `[null]` and `[""]` all flatten to the entry `""` |
| Scenarios.KeyCollisionExample | src/main/java/com/converter/io/JsonToCsvMapper.java:59-61 | with `"a.b":"1"` before `"a":{"b":"2"}`, the row holds `a.b` = `2` at the first key's position |
| Scenarios.InferredHeadersExample | src/main/java/com/converter/io/CsvFileWriter.java:37-66 | rows `{"a":1}`, `{"b":2}` without headers give the lines `[a,b]`, `[1,""]`, `["",2]` |
| Scenarios.SuppliedHeadersExample | src/test/java/io/CsvFileWriterTest.java:17-27 | supplied headers `id,name,age` form the first line, and each row's values follow in header order |

## Left out

- File output: `FileWriter`, the OpenCSV `CSVWriter`, quoting and escaping, the delimiter,
  line endings, flushing and the `IOException` wrapping (CsvFileWriter.java:47-53, 65-70).
  These are a foreign library plus side effects. The model stops at the lines handed to
  `writeNext`, before quoting.
- JSON parsing and the file-exists check (`JsonFileReader`). The model starts from a
  parsed value. An object with repeated member keys, which a parsed map cannot hold, is
  flattened member by member.
- The entry point (`Main`): hard-coded paths, console output and exception printing.
- Floating-point numbers: `Number` holds an integer rendered in decimal. Java's
  `Double.toString` is not modelled.
- `toString()` of arbitrary objects handed to the writer: a writer row carries each
  value's text directly. A nested map or list passed to the writer unflattened would print
  through Java's collection `toString`, which is not modelled.
- `null` entries inside a supplied header array: headers are a sequence of strings.
- The `value == null ? ""` branch of `mapToInlineString` (JsonToCsvMapper.java:94) is
  unreachable, because flattening stores only strings. The model's flat maps hold strings
  only.
- Flattener.Flatten: for an object value, the contract does not say which value each
  nested path ends up holding. It states which keys appear and in what order
  (`FlattenKeyOrder`), and that keys outside the prefix keep their values. Values under
  colliding paths depend on traversal order; the worked examples pin them down case by case.
