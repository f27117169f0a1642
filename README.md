# Workout builder — a verified model of its core

The application lets a personal trainer search a library of exercise GIFs,
assemble an ordered workout ("treino") for a student ("aluno"), store students
and workouts behind a small REST API, and export the workout as one HTML page.
This project models, in Dafny, the parts of it that are sequential logic:

- **Exercise lookup** (`src/App.jsx`): the name folding `normalizar`, the
  search effect that lists every catalog entry whose folded name contains the
  folded query, and `procurarGif`, which attaches an image to a generated
  exercise through a four-step fallback chain, and throws when the group
  names a member every object inherits from `Object.prototype` (module
  `CatalogSearch`, with the partial canonical decomposition in `Unicode`).
- **Workout assembly** (`src/App.jsx`): the list `selecionados` and the
  operations that replace it — add with de-duplication by id, remove, the
  per-field edits, the paired-flag toggle, moving an item next to its
  neighbour, and rebuilding the list from a saved or a generated workout
  (module `Selection`).
- **HTML export** (`src/Visualizacao.jsx`): `gerarHTML`'s loop that builds
  one numbered section per exercise, the document around it, the download
  name, and the per-exercise notes array `obs` (module `Export`).
- **Catalog builder** (`gerar_gifs_json.py`): `normalizar_nome` and the part
  of `main` that turns a directory listing into the catalog — one group per
  folder holding GIFs, entries sorted by name (modules `GifBuilder` and
  `Sorting`, catalog types in `GifsJson`).
- **REST API** (`server.js`): a class `ApiStore.Store` holding the two
  tables `alunos` and `treinos`, with one method per endpoint; each method is
  one transaction that either commits all its writes or leaves both tables
  as they were (module `ApiStore`, with the row types, queries and the
  tables' invariant in `ApiTables`).

Shared helpers live in `Strings` (substring containment, JavaScript and
Python trimming, ASCII case folding, decimal numerals) and `Wrappers`
(`Option`).

Where the source's shape is imperative the model is too: the search effect,
`procurarGif`, `gerarHTML`'s loop and the builder's loops are methods with
loops proved against specification functions; `mover` and the notes editor
copy into an array and assign in place; the API is a class whose methods
update its table fields. The pure `filter`/`map` expressions of
`src/App.jsx` are functions.

`gerarHTML` writes each exercise's `file` URL into the `img` tag unchanged
and fetches nothing (src/Visualizacao.jsx:20,45).

## Model

| member | source | states |
|---|---|---|
| `Unicode.Nfd` | src/App.jsx:36 | canonical decomposition never shortens the text and leaves only characters that do not decompose further |
| `Unicode.NfdAscii` | gerar_gifs_json.py:10 | ASCII text is its own NFD form |
| `Unicode.NfdConcat` | src/App.jsx:36 | decomposition works character by character: the NFD form of `a + b` is that of `a` followed by that of `b` |
| `Unicode.NfdChar` | src/App.jsx:36 | a single character's NFD form is its own canonical decomposition |
| `Unicode.DecomposePortuguese` | src/App.jsx:36 | each accented letter of Portuguese (á à â ã ç é ê í ó ô õ ú ü, both cases) decomposes into its base letter and the matching combining mark |
| `CatalogSearch.StripMarks` | src/App.jsx:37 | the result has no U+0300–U+036F combining mark, every character comes from the input, and text without marks is unchanged |
| `CatalogSearch.StripMarksConcat` | src/App.jsx:37 | mark removal works character by character: it distributes over concatenation |
| `CatalogSearch.StripMarksChar` | src/App.jsx:37 | a single combining mark is dropped and any other character kept |
| `CatalogSearch.StripNfdUnaccents` | src/App.jsx:36-37 | on text without stray marks, decomposing and dropping the marks leaves each character's base letter |
| `CatalogSearch.Normalize` | src/App.jsx:34-40 | `normalizar`'s output has no `_`, no `-`, no combining mark, no ASCII capital and no decomposable letter |
| `CatalogSearch.NormalizeIdempotent` | src/App.jsx:34-40 | folding a folded name changes nothing |
| `CatalogSearch.NormalizeAscii` | src/App.jsx:34-40 | on ASCII text `normalizar` only turns `_` and `-` into spaces and lowercases |
| `CatalogSearch.NormalizeRemovesAccents` | src/App.jsx:33-40 | on text without stray marks `normalizar` replaces every accented letter by its base letter, turns `_` and `-` into spaces and lowercases |
| `CatalogSearch.NormalizeAccentedLetter` | src/App.jsx:33-40 | an accented letter folds to its lower-case base letter (`É` to `e`) |
| `CatalogSearch.NormalizeConcat` | src/App.jsx:34-40 | `normalizar` works character by character: it distributes over concatenation |
| `CatalogSearch.Search` | src/App.jsx:73-98 | the nested loops push exactly the specification's result list: group order, then list order, only matching entries, keyed `grupo::nome` |
| `CatalogSearch.SearchBlank` | src/App.jsx:74-77 | an empty or whitespace-only query shows no results |
| `CatalogSearch.SearchMembership` | src/App.jsx:79-95 | for a non-blank query a result is shown iff some entry of some group has a folded name containing the folded query, and the result carries that group, URL, name and key |
| `CatalogSearch.MatchesIsContains` | src/App.jsx:48 | the `find` predicate "equal or contains" is exactly containment |
| `CatalogSearch.GroupIndex` | src/App.jsx:46 | the own key `grupo` of `gifsMap` is the first group with that name, and there is none when no group has it; inherited keys are handled by `GifFor` |
| `CatalogSearch.FirstMatch` | src/App.jsx:47-49 | `find` returns the first matching entry and no earlier entry matches |
| `CatalogSearch.FindGif` | src/App.jsx:42-62 | the early-return loop computes the four-step fallback chain, or the throw |
| `CatalogSearch.GifFor` | src/App.jsx:42-62 | `procurarGif` throws exactly when `grupo` names an `Object.prototype` member that no group has, since `gifsMap[grupo]` is then truthy and has no `find`; otherwise the URL is one the catalog holds or `""`, and `""` for an empty catalog |
| `CatalogSearch.GifForPrefersNamedGroup` | src/App.jsx:44-51 | with a matching entry in the named group, the URL is that group's first matching entry |
| `CatalogSearch.GifForAnyMatch` | src/App.jsx:52-57 | when the named group has no match but some entry matches, and the lookup does not throw, then the URL is the first matching entry of the first group, in key order, that has one |
| `CatalogSearch.GifForFallback` | src/App.jsx:45-61 | with no match anywhere and no throw: the named group's first URL, else the first group's first URL, else `""` |
| `Selection.FindId` | src/App.jsx:103 | `find` by id returns a position carrying the id, and none exactly when no item has it |
| `Selection.Add` | src/App.jsx:101-117 | a listed id leaves the list unchanged; otherwise one item with id `grupo::file`, empty reps and load and not paired is appended after the unchanged list |
| `Selection.AddKeepsUnique` | src/App.jsx:101-117 | adding keeps the ids pairwise distinct |
| `Selection.AddIdempotent` | src/App.jsx:101-104 | adding the same search result twice is the same as adding it once |
| `Selection.Remove` | src/App.jsx:119-120 | an item survives removal iff it was listed and carries another id |
| `Selection.RemoveConcat` | src/App.jsx:119-120 | removal works item by item, so the kept items stay in their original order |
| `Selection.RemoveUndoesAdd` | src/App.jsx:101-120 | removing the id just added restores the previous list |
| `Selection.RemoveKeepsUnique` | src/App.jsx:119-120 | removal keeps the ids pairwise distinct |
| `Selection.EditName` | src/App.jsx:122-125 | same length and order; only `nome` of the items with that id changes |
| `Selection.EditReps` | src/App.jsx:127-130 | same length and order; only `reps` of the items with that id changes |
| `Selection.EditLoad` | src/App.jsx:132-135 | same length and order; only `carga` of the items with that id changes |
| `Selection.TogglePaired` | src/App.jsx:137-140 | same length and order; only `conjugado` of the items with that id flips |
| `Selection.ToggleTwice` | src/App.jsx:137-140 | toggling twice restores the list |
| `Selection.EditsOverride` | src/App.jsx:122-135 | a second edit of the same field overrides the first |
| `Selection.EditTouchesOneItem` | src/App.jsx:122-140 | with unique ids each edit and the toggle change exactly one item, in one field |
| `Selection.EditAtPosition` | src/App.jsx:279-286 | the preview's positional edits change that position's reps or load, and nothing when the position or its id is missing |
| `Selection.SwapPermutes` | src/App.jsx:147 | exchanging two slots only reorders the list |
| `Selection.Move` | src/App.jsx:142-150 | the in-place swap on the copied array yields the specified list and a permutation of the input |
| `Selection.MovedExchanges` | src/App.jsx:142-150 | a target inside the list exchanges exactly the two items; a target outside leaves the list unchanged |
| `Selection.MoveBack` | src/App.jsx:142-150 | moving an item and moving it back restores the list |
| `Selection.MoveKeepsUnique` | src/App.jsx:142-150 | moving keeps the ids pairwise distinct |
| `Selection.Or` | src/App.jsx:202 | JavaScript's `or` on strings gives `a` or `b`, and `""` only when both are empty |
| `Selection.FromSaved` | src/App.jsx:203-208 | a saved item keeps its fields, gets a boolean `conjugado` from the stored value's truthiness, and gets `<nome or "ex">-<idx>` when it has no id |
| `Selection.SavedList` | src/App.jsx:203-209 | a missing list gives `[]`; otherwise same length and order, item `i` rebuilt from saved item `i` |
| `Selection.StudentName` | src/App.jsx:199-202 | the current name is kept when non-empty, otherwise `alunoNome`, then `aluno_nome`, then `aluno`, the first of them that is non-empty, else `""` |
| `Selection.ApplySaved` | src/App.jsx:198-211 | no workout changes nothing; otherwise the name and the rebuilt list replace the old ones |
| `Selection.SavedDefaultIdsDistinct` | src/App.jsx:208 | ids made up for two different positions differ |
| `Selection.ItemsOf` | src/App.jsx:237 | a non-array `treino` is read as the empty list |
| `Selection.FromGenerated` | src/App.jsx:239-247 | a generated item gets id `<agora>-<idx>`, `Exercício <idx+1>` for a missing name, `Geral` for a missing group, `""` for missing reps or load, a boolean flag, and the image `procurarGif` finds; nothing when that lookup throws |
| `Selection.GeneratedList` | src/App.jsx:237-248 | for generated items whose fields are strings, the `map` throws exactly when some item's group makes `procurarGif` throw; otherwise one rebuilt item per generated item, same length and order |
| `Selection.AfterGenerate` | src/App.jsx:239-253 | when the `map` throws, the error is caught: the selection stays as it was and the error message is set; otherwise the rebuilt list replaces the selection and no error shows |
| `Selection.InheritedGroupKeepsSelection` | src/App.jsx:239-253 | an item with group `toString`, which no folder has, leaves the selection unchanged and sets the error |
| `Selection.GeneratedNotArray` | src/App.jsx:237 | a reply without a `treino` array gives an empty list |
| `Selection.GeneratedIdsUnique` | src/App.jsx:239-240 | the generated list's ids are pairwise distinct |
| `Selection.GeneratedImagesFromCatalog` | src/App.jsx:246 | every generated item's image is a catalog URL or `""` |
| `Export.Sections` | src/Visualizacao.jsx:18-53 | exactly one section per exercise, section `i` built from exercise `i` and note `i` |
| `Export.Render` | src/Visualizacao.jsx:16-90 | the loop's accumulated `bloco` is the sections joined in order, placed inside the document |
| `Export.GenerateHtml` | src/Visualizacao.jsx:15-97 | the exported document is the page template around the ordered sections, downloaded as `Treino-<nomeAluno>.html` |
| `Export.DocumentLayout` | src/Visualizacao.jsx:18-53 | section `i` sits right after sections `0..i-1` and right before sections `i+1..` |
| `Export.Section` | src/Visualizacao.jsx:22-52 | section `i` opens with the badge `i+1` right after the opening markup and `ex.nome`, unescaped, right after the badge markup, and ends with the `img src` set to `ex.file` unchanged |
| `Export.SectionNote` | src/Visualizacao.jsx:38-42 | the note paragraph is present, verbatim, exactly when the note is non-empty |
| `Export.Document` | src/Visualizacao.jsx:55-89 | the title naming the student verbatim comes right after the opening markup and the heading right after the head markup, and the document ends with the joined sections followed by the closing markup |
| `Export.InitialNotes` | src/Visualizacao.jsx:10 | the notes start as one `""` per exercise |
| `Export.InitialNotesHaveNoParagraph` | src/Visualizacao.jsx:10 | with the initial notes no section has a note paragraph |
| `Export.NotesAfterEdit` | src/Visualizacao.jsx:136-140 | the notes after an edit are as long as before, or reach the edited slot |
| `Export.EditNote` | src/Visualizacao.jsx:136-140 | copying the array and assigning one slot gives the specified notes |
| `Export.EditNoteChangesOneSlot` | src/Visualizacao.jsx:136-140 | an edit sets that slot, leaves every other note as it was, and keeps the length |
| `GifBuilder.AsciiOnly` | gerar_gifs_json.py:11 | the ASCII filter keeps only ASCII characters and leaves ASCII text unchanged |
| `GifBuilder.AsciiOnlyConcat` | gerar_gifs_json.py:11 | the ASCII filter works character by character: it distributes over concatenation |
| `GifBuilder.AsciiOnlyChar` | gerar_gifs_json.py:11 | a single character is kept when it is ASCII and dropped otherwise |
| `GifBuilder.CollapseSpacePairs` | gerar_gifs_json.py:14 | the single replace pass never lengthens the text and leaves text without double spaces unchanged |
| `GifBuilder.CollapseConcat` | gerar_gifs_json.py:14 | the pass runs left to right, so text not ending in a space collapses independently of what follows |
| `GifBuilder.CollapseDoubleSpace` | gerar_gifs_json.py:14 | a pair of spaces after text not ending in a space becomes one space (`a  b` to `a b`) |
| `GifBuilder.CollapseSpaceRun` | gerar_gifs_json.py:14 | one pass turns a run of `n` spaces into `ceil(n/2)` spaces, so runs of three or more keep a double space |
| `GifBuilder.NormalizeName` | gerar_gifs_json.py:8-15 | `normalizar_nome`'s output is ASCII, has no `_` or `-`, no capital, and no whitespace at either end |
| `GifBuilder.AsciiNfdUnaccents` | gerar_gifs_json.py:10-11 | decomposing ASCII and accented Latin-1 letters and dropping the non-ASCII characters leaves each character's base letter |
| `GifBuilder.NormalizeNameRemovesAccents` | gerar_gifs_json.py:8-15 | on a name of ASCII and accented letters with no `_`, `-`, space pair or surrounding whitespace, `normalizar_nome` replaces every accented letter by its base letter and lowercases |
| `GifBuilder.NormalizeNameAccentedLetter` | gerar_gifs_json.py:8-15 | an accented letter on its own becomes its lower-case base letter |
| `GifBuilder.PlainNamesFoldAlike` | gerar_gifs_json.py:8-15 | on such a name the builder's `normalizar_nome` and the front end's `normalizar` give the same text |
| `GifBuilder.NormalizeNameAscii` | gerar_gifs_json.py:10-11 | on ASCII input the decomposition and the ASCII filter do nothing |
| `GifBuilder.FrontEndKeepsBuilderNames` | gerar_gifs_json.py:8-15 | the front end's `normalizar` leaves every name the builder writes unchanged |
| `GifBuilder.Stem` | gerar_gifs_json.py:39 | `splitext`'s stem is a prefix of the file name |
| `GifBuilder.StemOfGif` | gerar_gifs_json.py:34-39 | a `.gif` file's stem drops the four-character extension, unless everything before it is dots |
| `GifBuilder.GifFiles` | gerar_gifs_json.py:32-35 | a name is kept iff it is in the folder, ends in `.gif` in any case and does not start with `._` |
| `GifBuilder.GifFilesConcat` | gerar_gifs_json.py:32-35 | the comprehension keeps listing order: it distributes over concatenation |
| `GifBuilder.EntriesOfAt` | gerar_gifs_json.py:38-45 | entry `i` is built from GIF file `i` |
| `GifBuilder.FolderEntries` | gerar_gifs_json.py:37-45 | the inner loop appends one entry per GIF file, in file order |
| `GifBuilder.BuildCatalog` | gerar_gifs_json.py:22-48 | the outer loop builds the specified catalog from the sorted listing |
| `GifBuilder.GroupsOfMembers` | gerar_gifs_json.py:28-48 | a group is written iff some folder of that name holds a GIF, and it then holds that folder's entries sorted |
| `GifBuilder.CatalogGroupsWellFormed` | gerar_gifs_json.py:28-48 | every written group is non-empty, sorted by `nome`, named after a folder of the listing and holds exactly that folder's entries |
| `GifBuilder.CatalogComplete` | gerar_gifs_json.py:28-48 | every folder of the listing that holds a GIF has its group in the catalog |
| `GifBuilder.EntryShape` | gerar_gifs_json.py:39-45 | each entry's URL is `/gifs/<categoria>/<file>` and its name is `normalizar_nome` of that file's stem |
| `GifBuilder.CatalogOf` | gerar_gifs_json.py:22-48 | the groups come out in folder-name order |
| `Sorting.SortBy` | gerar_gifs_json.py:48 | `sorted` keeps the length and orders by key |
| `Sorting.SortByPermutes` | gerar_gifs_json.py:48 | `sorted` only reorders |
| `Sorting.SortByStable` | gerar_gifs_json.py:48 | entries with equal keys keep their input order |
| `Sorting.SortBySorted` | gerar_gifs_json.py:48 | an already sorted list is left as it is |
| `ApiTables.TrimmedIsStored` | server.js:54 | a trimmed non-empty name is stored trimmed |
| `ApiTables.FindByName` | server.js:59-62 | the lookup by name returns a row with that name, and none exactly when no row has it |
| `ApiTables.FindById` | server.js:110-113 | the lookup by id returns a row with that id, and none exactly when no row has it |
| `ApiTables.RenameKeepsNamesUnique` | server.js:102-113 | a rename the duplicate check lets through keeps names unique |
| `ApiTables.RenameKeepsIds` | server.js:110-113 | a rename keeps the set of student ids |
| `ApiTables.DeleteCount` | server.js:133-136 | the delete removes a row exactly when the student exists, which decides the 404 |
| `ApiTables.WorkoutsNamedMembers` | server.js:191-194 | `?aluno=` lists exactly the workouts saved under that name |
| `ApiTables.NewestFirst` | server.js:197 | `order by created_at desc` over rows kept in insertion order lists them last first |
| `ApiTables.NewestFirstReverses` | server.js:84-86 | the newest-first listing holds the same rows with strictly decreasing `created_at` |
| `ApiTables.WherePairwise` | server.js:191-194 | filtering rows keeps their relative order |
| `ApiTables.AddStudentConsistent` | server.js:67-70 | inserting a new, trimmed name keeps the tables' invariant, unique names included |
| `ApiTables.AddWorkoutConsistent` | server.js:172-175 | inserting a workout for an existing student keeps the invariant |
| `ApiTables.SaveForKnownConsistent` | server.js:159-175 | saving for a known student adds one workout and keeps the invariant |
| `ApiTables.SaveForNewConsistent` | server.js:159-175 | saving for a new name adds one student and one workout and keeps the invariant |
| `ApiTables.RenameConsistent` | server.js:102-113 | a permitted rename keeps the invariant |
| `ApiTables.DeleteConsistent` | server.js:131-134 | the cascade keeps the invariant and leaves no row of that student and no workout pointing at it |
| `ApiStore.Store.constructor` | server.js:30-42 | the tables start empty and consistent |
| `ApiStore.Store.CreateStudent` | server.js:53-80 | blank name: 400, no change; query failure: 500, rolled back; existing name: that row with `existed: true`, no change; otherwise exactly one new student, `existed: false`; names stay unique |
| `ApiStore.Store.RenameStudent` | server.js:94-125 | blank name: 400; name held by another student: 400; failure: 500; unknown id: 404 — all without change; otherwise only that student's name changes |
| `ApiStore.Store.DeleteStudent` | server.js:127-145 | failure: 500, no change; otherwise every workout of that id and the student are deleted, and 404 when no student row was |
| `ApiStore.Store.SaveWorkout` | server.js:147-185 | blank name or non-array `treino`: 400; failure: 500 with the error's message, rolled back; otherwise the student is found or created and exactly one workout with its id and name is added |
| `ApiStore.Store.InsertWorkoutFor` | server.js:159-175 | for a name already in `alunos`, the one new row is a workout under that student's id with the trimmed name, the next id and the request's time; the students are unchanged and the invariant still holds |
| `ApiStore.Store.InsertStudentAndWorkout` | server.js:163-175 | for a new name, a student row and then a workout under the new student's id are appended; the ids are consecutive, both rows share the request's time and the invariant still holds |
| `ApiStore.Store.ListStudents` | server.js:82-92 | every student, newest first, or 500 |
| `ApiStore.Store.ListWorkouts` | server.js:187-205 | the workouts saved under `aluno` (all when absent), newest first, or 500 |

## Left out

- Unicode canonical decomposition is modelled only for the precomposed Latin-1 letters (U+00C0–U+00FF); every other character is taken as already decomposed. Lowercasing (`toLowerCase`, `str.lower`) is modelled for ASCII letters only.
- `fetch("/gifs.json")`, the `/ia/gerar-treino` request, `Date.now()` (a parameter `agora`), `prompt`/`confirm` and console logging are outside the model; only the mapping of the generated list, and the catch that keeps the selection when that mapping throws, are modelled.
- The export's Blob, object URL and anchor click are left out; the model returns the document and the download name.
- React rendering, loading and error flags, and date formatting are user interface, not modelled.
- `src/firebase.js` and the Netlify functions (`netlify/functions/students.js`, `netlify/functions/trainings.js`) are not part of this model: they forward to Firestore and Supabase, whose behaviour is not in the source.
- Express and CORS wiring, the `pg` connection pool, `ensureTables`' DDL (the store starts with empty tables) and the start-up `process.exit` are left out.
- The store's ids are a counter standing for `gen_random_uuid()`, and `created_at` is a counter that advances once per request that inserts; the rows one POST /treinos inserts share one `created_at`, as `now()` is the transaction's start time. Within each table, `order by created_at desc` is therefore reverse insertion order. A malformed uuid in the URL, which Postgres would reject with a 500, cannot arise.
- Concurrency is left out: each handler is one atomic step, so the race between two concurrent find-or-create requests (and the unique-constraint failure it would cause) is not modelled. A failing query is a parameter `fault`; when it is present the handler answers 500 and the tables are unchanged.
- A request body whose `nome` or `aluno` is not a string (where `.trim` would throw) is not modelled; absent text fields are `""`. The workout's exercise list is stored as opaque JSON texts.
- In `gerar_gifs_json.py`, `os.listdir`/`os.path.isdir`, writing the JSON file and `print` are left out; the directory listing is an input.
- Selection.Add, Selection.EditRepsAt, Selection.EditLoadAt: `adicionar` and the preview's positional edits read the rendered list (`selecionados[idx]`) and then apply the change through a state updater; the model treats both as the same list.
- Selection.GeneratedList: the generated items are objects whose `nome`, `grupo`, `reps` and `carga` are strings or absent (absent read as `""`). A `null` item (where `ex.nome` throws) or a truthy non-string `nome` such as `5` (where `normalize` is called on a non-string) would also make the `map` throw, and the catch would keep `selecionados` and set the error; those inputs are not modelled.
- Selection.Move: requires `index` to be a position of the list, as every call site passes the rendered item's index.
- Selection.FromSaved: fields the stored item lacks are read as `""`, and extra fields of the stored item (`...ex`) are not carried. A saved item without `nome` or `file` therefore renders as `""` in the export, where the template literals of `gerarHTML` write `undefined`.
- The catalog's group order is the JSON object's key order. JavaScript's `Object.entries` would list integer-like keys (a folder named `1`) first; that reordering is not modelled. Duplicate keys cannot come from the builder, and the lookup takes the first group of a name.
- Export.Sections: "one section per exercise, in order" is stated on the list of sections the document joins, not by counting `<section` in the output text, because names and notes are written unescaped and may contain that text themselves.
