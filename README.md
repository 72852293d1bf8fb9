# Verified model of three small Rust programs

This project models three small programs from a collection of Rust
experiments. It proves the behaviour their code promises.

- **`gen_css_modules_type`** (module `CssModulesType`) watches a directory.
  When the first path of a change event has the extension `css`, it
  generates a TypeScript declaration file for the CSS module:
  - every `.name` class selector found by the regular expression `\.\w+`
    becomes one line, `export const name: string;`;
  - the output is written to `<file name>.d.ts`.

  The model has three parts:
  - a scanner for that one pattern, proved sound, complete and maximal;
  - the map and fold stages that build the lines, with their inverse
    parsers;
  - Rust's `Path::file_name`, `Path::extension` and `OsStr::to_str`, over
    text that may hold bytes that are not UTF-8.
- **`boxes`** (module `Boxes`) is the start of a 2048-style sliding-tile
  game written with Bevy. The code has:
  - the tile data (`Position`, `Points`);
  - the mapping from arrow keys to `BoardShift`;
  - the enumeration of the cells of a `size`×`size` board;
  - the start-up spawn of two tiles worth 2 points on distinct cells;
  - a `board_shift` system. For Left it sorts the tiles row by row and
    prints them with `dbg!`; for the other directions it prints the
    direction's name.

  No tile is ever moved. The tile store is a class, `Boxes.World`:
  - `SpawnTiles` fills the store in a loop over the chosen cells;
  - `ShiftBoard` provably leaves every tile unchanged.
- **`compose_in_rust`** (module `Compose`) is a small function pipe:
  - `pipe().to(f)` wraps `f`;
  - `Pipe::to(g)` post-composes `g`;
  - `call` applies the pipe.

  The model proves the pipe's laws and the worked example in `main`, where
  `"Hi"` gives 4.

`Outcomes` holds the shared `Option` and `Result` types.

## Model

| member | source | states |
|---|---|---|
| CssModulesType.RunEnd | gen_css_modules_type/src/lib.rs:51 | `\w+` is greedy: the run it returns consists of word characters and is followed by the end of the text or by a non-word character |
| CssModulesType.MatchesFrom | gen_css_modules_type/src/lib.rs:50-56 | every match found is a `.` followed by a maximal run of word characters; the matches come left to right and do not overlap |
| CssModulesType.MatchesFromComplete | gen_css_modules_type/src/lib.rs:50-56 | every position holding a `.` followed by a word character is the start of some match (the scan misses none) |
| CssModulesType.MatchesFromCount | gen_css_modules_type/src/lib.rs:50-56 | the number of matches equals the number of `.`-then-word-character positions |
| CssModulesType.ParseRules | gen_css_modules_type/src/lib.rs:50-56 | `parse_rules` returns one rule per `.`-word position; each rule has length at least 2, starts with `.`, and the rest is word characters |
| CssModulesType.ParseRulesAreAllMaximalMatches | gen_css_modules_type/src/lib.rs:50-56 | each rule is exactly the text of a maximal match, in order, and a position starts a match if and only if it holds `.` followed by a word character |
| CssModulesType.NoRulesIffNoDotWord | gen_css_modules_type/src/lib.rs:51-55 | the rule list is empty if and only if no `.` in the CSS is followed by a word character |
| CssModulesType.TypeDefsOfRules | gen_css_modules_type/src/lib.rs:69-74 | one line `export const NAME: string;` per name, in order; `TypeDefsOfRulesRoundTrip` proves each line parses back to its name |
| CssModulesType.CreateTypeDefsFile | gen_css_modules_type/src/lib.rs:76-82 | the left fold appending each definition and a newline; `CreateTypeDefsFileIsTerminated`, `CreateTypeDefsFileNewlines` and `CreateTypeDefsFileLines` state what it produces |
| CssModulesType.HandleCssChange | gen_css_modules_type/src/lib.rs:42-48 | the four stages in the source's order; `HandleCssChangeLines` states the lines it produces |
| CssModulesType.RemoveDot | gen_css_modules_type/src/lib.rs:58-67 | `remove_dot` keeps length and order, and each rule is its first character followed by the returned name |
| CssModulesType.RuleNamesAreWords | gen_css_modules_type/src/lib.rs:58-67 | after `parse_rules` and `remove_dot` every name is a non-empty run of word characters, and the rule is `.` followed by it |
| CssModulesType.TypeDefsOfRulesRoundTrip | gen_css_modules_type/src/lib.rs:69-74 | `type_defs_of_rules` maps names one to one, in order, to `export const NAME: string;`; parsing each line back gives the name |
| CssModulesType.CreateTypeDefsFileIsTerminated | gen_css_modules_type/src/lib.rs:76-82 | the left fold of `create_type_defs_file` equals the concatenation of `d + "\n"` over the definitions |
| CssModulesType.CreateTypeDefsFileNewlines | gen_css_modules_type/src/lib.rs:76-82 | for definitions without a newline (every `export const` line is one, `TypeDefHasNoNewline`), the file has one newline per definition; no definitions give the empty string |
| CssModulesType.CreateTypeDefsFileLines | gen_css_modules_type/src/lib.rs:76-82 | for definitions without a newline (every `export const` line is one, `TypeDefHasNoNewline`), splitting the file into newline-terminated lines gives back exactly the definitions |
| CssModulesType.HandleCssChangeLines | gen_css_modules_type/src/lib.rs:42-48 | the generated file's lines are exactly `export const NAME: string;` for the rules found, in order, one per occurrence, with no deduplication |
| CssModulesType.RepeatedRuleGivesTwoLines | gen_css_modules_type/src/lib.rs:42-48 | `.a .a` gives two identical lines |
| CssModulesType.ToStr | gen_css_modules_type/src/lib.rs:105 | `to_str`; `ToStrOfUnits` and `ToStrChars` state when it succeeds and what it returns |
| CssModulesType.ToStrChars | gen_css_modules_type/src/lib.rs:105-108 | text made only of characters converts back to that string |
| CssModulesType.ToStrOfUnits | gen_css_modules_type/src/lib.rs:105-108 | `to_str` fails if and only if the text contains a `Raw` unit, which for a path in decoded form (see "## Left out") is a byte that is not UTF-8; otherwise it keeps every character in place |
| CssModulesType.SplitSlashRoundTrip | gen_css_modules_type/src/lib.rs:104 | splitting a path at `/` and joining the pieces with `/` gives back the path |
| CssModulesType.FileName | gen_css_modules_type/src/lib.rs:104 | `file_name` returns a non-empty piece that is not `..` and has no `/`; `FileNameOfPieces` ties it to the path |
| CssModulesType.FileNameOfPieces | gen_css_modules_type/src/lib.rs:104 | `file_name` is the last `/`-separated piece that is neither empty nor `.`, unless that piece is `..`; a path made only of such skipped pieces has none, and one of the two cases always holds |
| CssModulesType.FileNameOfJoin | gen_css_modules_type/src/lib.rs:104 | for every directory `dir` and named piece `n` (no `/`, not empty, `.` or `..`), the file name of `dir/n` is `n`: the directory part is dropped |
| CssModulesType.Extension | gen_css_modules_type/src/lib.rs:26 | `Path::extension`: what follows the last `.` of the file name, none without a dot or with an empty stem; `ExtensionOfFileName`, `ExtensionAt` and `ExtensionOfName` state it |
| CssModulesType.IsCssPath | gen_css_modules_type/src/lib.rs:26-28 | the path has an extension and it converts to exactly the text `css`; `CssPathExample`, `UpperCaseExtensionExample` and `HiddenFileExample` exercise it |
| CssModulesType.ExtensionOfFileName | gen_css_modules_type/src/lib.rs:26 | there is an extension if and only if the file name has a `.` after its first unit; the name is then `stem.ext` with a non-empty stem and no `.` in `ext` |
| CssModulesType.ExtensionAt | gen_css_modules_type/src/lib.rs:26 | the extension is what follows the last `.` of the file name, and there is none when that `.` is the name's first unit |
| CssModulesType.ExtensionOfName | gen_css_modules_type/src/lib.rs:26 | a file name `stem.ext` with no `.` in `ext` has extension `ext`, unless the stem is empty |
| CssModulesType.CreateTypeDefsFilename | gen_css_modules_type/src/lib.rs:102-111 | the output name ends in `.d.ts` and contains no `/`; before the suffix it is the UTF-8 file name, or `unknown` when there is no file name or it is not UTF-8 |
| CssModulesType.FilenameOfTextName | gen_css_modules_type/src/lib.rs:104-106 | a UTF-8 file name `s` gives `s.d.ts` |
| CssModulesType.CssFilenameEndsInCssDts | gen_css_modules_type/src/lib.rs:26-29 | for a handled `.css` path the output name ends in `.css.d.ts`, or is `unknown.d.ts` |
| CssModulesType.HandleOnModify | gen_css_modules_type/src/lib.rs:23-40 | the modify handler; `HandleOnModifyDecision` states when it saves a file and what it saves |
| CssModulesType.HandleOnModifyDecision | gen_css_modules_type/src/lib.rs:23-40 | a file is generated if and only if the list is non-empty and its first path has extension exactly `css`; only the first path matters; the file gets the derived name and the generated declarations of the file's contents |
| CssModulesType.DirectoryIsDropped | gen_css_modules_type/src/lib.rs:104 | the file name of `d/a.css` is `a.css` |
| CssModulesType.CssPathExample | gen_css_modules_type/src/lib.rs:26-29 | `d/a.css` is handled and gives `a.css.d.ts` |
| CssModulesType.LoneName | gen_css_modules_type/src/lib.rs:104 | a single named component is its own file name |
| CssModulesType.UpperCaseExtensionExample | gen_css_modules_type/src/lib.rs:28 | the comparison with `css` is case-sensitive: `a.CSS` is not handled |
| CssModulesType.HiddenFileExample | gen_css_modules_type/src/lib.rs:26 | `.css` has no extension, so it is not handled |
| Boxes.ShiftOfKey | boxes/src/main.rs:188-196 | `BoardShift::try_from`; `ShiftOfKeyIsArrowKey` states it accepts exactly the four arrow keys |
| Boxes.ShiftOfKeyIsArrowKey | boxes/src/main.rs:185-197 | `try_from` gives `Ok(d)` exactly for the arrow key of the same name, and `Err` for every other key |
| Boxes.ShiftDirection | boxes/src/main.rs:200-202 | the direction is that of the first just-pressed key that converts; it is None exactly when no key converts |
| Boxes.LeftCmp | boxes/src/main.rs:208-211 | the Left comparator, comparing `y` and then `x`; `LeftCmpIsRowMajor` and `RowMajorLeTransitive` state it is a total order |
| Boxes.LeftCmpIsRowMajor | boxes/src/main.rs:208-211 | the Left comparator orders positions by `y`, then by `x`; it says Equal only for equal positions, is antisymmetric, and agrees with the row-major order |
| Boxes.RowMajorLeTransitive | boxes/src/main.rs:208-211 | the order of the Left comparator is transitive |
| Boxes.InsertLeft | boxes/src/main.rs:206-211 | inserting a tile adds exactly that tile to the multiset of tiles |
| Boxes.InsertLeftSorted | boxes/src/main.rs:206-211 | inserting into a sorted sequence keeps it sorted by (`y`, `x`) |
| Boxes.SortedByLeft | boxes/src/main.rs:206-211 | `sorted_by` with the Left comparator returns a permutation of the tiles, sorted by (`y`, `x`) |
| Boxes.Cells | boxes/src/main.rs:120-121 | `(0..size).cartesian_product(0..size)` has `size * size` cells; `CellsEnumeration` states which ones |
| Boxes.CellsFrom | boxes/src/main.rs:120-121 | the cartesian product from column `from` on has `(size - from) * size` in-bounds cells |
| Boxes.CellsEnumeration | boxes/src/main.rs:120-121 | `(0..size) × (0..size)` has `size²` pairwise-distinct cells, and a cell is in it if and only if both coordinates are below `size` |
| Boxes.IsChoice | boxes/src/main.rs:119-122 | what `choose_multiple(rng, 2)` may return: the cells at `min(2, size²)` distinct positions of the pool, in any order; `StartingChoiceExists` shows one exists |
| Boxes.SpawnedTiles | boxes/src/main.rs:124-158 | one tile per chosen cell, in order, worth 2 points; `SpawnedTilesOnDistinctCells` states the result |
| Boxes.StartingChoiceExists | boxes/src/main.rs:119-122 | on every board there is a valid choice of `min(2, size²)` distinct positions of the cell pool |
| Boxes.SpawnedTilesOnDistinctCells | boxes/src/main.rs:119-158 | a valid choice spawns `min(2, size²)` tiles worth 2 points, on pairwise-distinct cells of the board: distinct positions give distinct cells because the enumeration has no repeats (`CellsEnumeration`) |
| Boxes.TwoStartingTiles | boxes/src/main.rs:116-122 | on the 4×4 board exactly two tiles start, on different cells |
| Boxes.World.constructor | boxes/src/main.rs:84-85 | the world starts with the board and no tiles |
| Boxes.World.SpawnTiles | boxes/src/main.rs:116-159 | fills the empty store with one tile worth 2 points per chosen cell, with fresh entities, and keeps the store valid (tiles on the board, on distinct cells, with distinct entities) |
| Boxes.World.ShiftBoard | boxes/src/main.rs:199-225 | leaves every tile unchanged; prints nothing when no key converts, the tiles sorted by (`y`, `x`) for Left, and `right`, `up` or `down` otherwise |
| Compose.NewPipe | compose_in_rust/src/main.rs:15-17 | `pipe()` |
| Compose.PipeMaker.To | compose_in_rust/src/main.rs:26-35 | `PipeMaker::to` wraps `f`; `MakerToCall` states the pipe computes `f` |
| Compose.Pipe.To | compose_in_rust/src/main.rs:43-53 | `Pipe::to` post-composes; `ToCall`, `ChainLeftToRight` and `ToAssociative` state its laws |
| Compose.Pipe.Call | compose_in_rust/src/main.rs:55-57 | `Pipe::call` applies the wrapped function |
| Compose.MakerToCall | compose_in_rust/src/main.rs:15-35 | `pipe().to(f).call(x) == f(x)` |
| Compose.ToCall | compose_in_rust/src/main.rs:43-57 | `p.to(g).call(x) == g(p.call(x))` |
| Compose.ChainLeftToRight | compose_in_rust/src/main.rs:43-53 | `pipe().to(f).to(g).to(h).call(x) == h(g(f(x)))` |
| Compose.ToAssociative | compose_in_rust/src/main.rs:43-53 | appending `g` then `h` computes what appending `x => h(g(x))` once does |
| Compose.AppendExclamation | compose_in_rust/src/main.rs:2-6 | the result is the word with one `!` added at its end |
| Compose.Utf8LenAppend | compose_in_rust/src/main.rs:7 | the byte length of `String` is additive over concatenation |
| Compose.Num | compose_in_rust/src/main.rs:7 | `word.len()`, the UTF-8 byte length; `Utf8LenAppend` and `Utf8LenAscii` state its properties |
| Compose.AddOne | compose_in_rust/src/main.rs:8 | `num + 1` |
| Compose.Composed | compose_in_rust/src/main.rs:10 | the pipe built in `main`; `ComposedIsLengthPlusTwo` states what it computes |
| Compose.Utf8LenAscii | compose_in_rust/src/main.rs:7 | for ASCII text the byte length is the number of characters |
| Compose.ComposedIsLengthPlusTwo | compose_in_rust/src/main.rs:7-10 | the composed pipe returns the word's byte length plus two, for every word |
| Compose.HiGivesFour | compose_in_rust/src/main.rs:10-12 | `composed.call("Hi")` is 4 |

## Left out

- File I/O in `gen_css_modules_type` is not modelled: the file watcher, reading stdin, the retry loops that read and write files, `println!`, and the event loop in `main.rs`. `HandleOnModify` takes the file reading as its `read` parameter and returns the save as an `Action` value.
- The `regex` engine and `unicode_segmentation` are not modelled. `\w` is the ASCII class `[A-Za-z0-9_]`, and the first grapheme of a rule is its `.`. Unicode word characters and grapheme clusters are not captured.
- Paths follow Unix rules. Windows prefixes and drive letters are not modelled, and bytes that are not UTF-8 are an opaque `Raw` unit. A path is taken in decoded form: valid UTF-8 is always written as `Ch` units, never as a run of `Raw` units, and the `OsUnit` type does not enforce this. `ToStrOfUnits` holds for paths in that form.
- The Bevy application, window, camera, sprites, fonts, assets, system scheduling and `render_tile_points` are not modelled. They are engine callbacks.
- The `f32` board geometry (`Board::new`'s physical size, `cell_position_to_physical`) is not modelled; it is floating point.
- The random number generator is not modelled. `choose_multiple` becomes the `chosen` parameter, constrained by `IsChoice`.
- Merging, compaction, the Right/Up/Down orderings, scores, spawning after a move and game over are not modelled. The program has no code for them.
- Boxes.ShiftDirection: the just-pressed keys are a sequence. Bevy keeps them in a hash set whose iteration order the model does not fix.
- Boxes.World.SpawnTiles: modelled as the start-up system it is, run once on an empty world.
- Boxes.SortedByLeft: the sort is an insertion sort on values. Stability and the mutable borrows that `iter_mut` hands to `dbg!` are not modelled.
- Compose.AddOne: `usize` overflow of `num + 1` is not modelled; integers are unbounded.
- Rust lifetimes, `Box<dyn Fn>` and the `println!` in `compose_in_rust` are not modelled; a pipe is a Dafny function value.
