# book-listing-automation, modelled in Dafny

This project models the file-handling core of `book-listing-automation`, a Python tool that prepares second-hand book listings from photos:

- **Grouping photos** (`src/blt/group_photos.py`): photos in the raw folder are moved into numbered book folders `book_001`, `book_002`, …, renamed `01.jpg`, `02.heic`, … inside each folder.
  - `group_last_set` moves the N most recent photos.
  - `group_all` moves the whole pool, oldest first, in batches of N, with an optional cap on the number of batches.
- **Picking photos** (`src/blt/utils/images.py`): `pick_last_n_images` returns the latest n photos by modification time.
- **Uploading** (`src/blt/storage.py`): the accepted photos of a folder are uploaded in name order under time-stamped keys, and the public URLs are returned.
- **HEIC conversion** (`src/blt/heic_convert.py`): HEIC/HEIF photos are converted to JPEG.
  - Pillow is tried first, with a pillow-heif fallback, then a portable ffmpeg whose location is cached.
  - The source is deleted on success if requested.
- **Listing placeholder** (`src/blt/describe_book.py`): a title is derived from the folder name, for example `book_001` becomes `Book 001`.
- **Encoding repair** (`fix_encoding.py`): a Python file saved as UTF-16 is rewritten as UTF-8. A file qualifies when it holds a zero byte or starts with a byte order mark (section 3.2 of RFC 2781).

The file system is modelled on values:

- **Raw folder.** A sequence of entries, each with a name and a modification time.
- **Grouped root.** A map from sub-directory name to that directory's files.
- **Walked folder.** A listing of relative paths, each marked as a file or a directory.
- **Storage client.** A log of the uploads it received.

Operations that change state are methods on classes holding this state:

- `GroupPhotos.PhotoStore`
- `Storage.Bucket`
- `HeicConvert.Converter`
- `FixEncoding.TextFile`

Each method is proved equal to a specification function, or is stated directly against the old state. The properties the code promises are then proved as lemmas about those functions.

Five helper modules carry shared facts, each proved once:

- **Wrappers**: `Option` and `Outcome`.
- **Text**: ASCII case mapping and decimal formatting and parsing.
- **Seqs**: filtering, removal, duplicate-freedom, subsequences and Python's slicing.
- **Ordering**:
  - a stable insertion sort standing for Python's `sort`, which is stable too;
  - lexicographic order.
- **Paths**:
  - `suffix`, `stem` and `with_suffix`;
  - sorting by mtime;
  - path order.

Some behaviour is modelled exactly as written:

- **Trailing newline.** Python's `$` also matches before a final newline, so a directory named `"book_001\n"` counts as book 1.
- **`imgs[-0:]`.** This slice is the whole list, so `pick_last_n_images(folder, 0)` returns every image, and so does `group_last_set` with N = 0.
- **Index reuse.** `_next_book_index` looks only at the folders present. If the highest `book_NNN` is deleted, its index is handed out again (`GroupPhotos.IndexReusedAfterDelete`). Without deletions, indices are consecutive across calls (`GroupPhotos.NextAfterBatches`, `GroupPhotos.NextAfterLastSet`).
- **Zero batch size.** `group_all` with N = 0 divides by zero whenever there is an image; the method requires N ≠ 0 exactly then.
- **Uncaught errors.** An `Image.open` error other than "unidentified image" is not caught. It ends `convert_file` and `convert_folder` (the `Raised` outcome).

## Model

| member | source | states |
|---|---|---|
| GroupPhotos.IsBookName | src/blt/group_photos.py:10 | `re.match(r"book_\d{3,}$")` with ASCII digits: a matching name starts `book_` and is at least eight characters long |
| GroupPhotos.BookName | src/blt/group_photos.py:17 | `book_{i:03d}` is `book_` followed by at least three digits |
| GroupPhotos.BookNameRoundTrip | src/blt/group_photos.py:10-17 | the name `book_{i:03d}` matches `book_\d{3,}$` and `int(name.split("_")[1])` gives back i |
| GroupPhotos.BookNameInjective | src/blt/group_photos.py:17 | different indices give different folder names |
| GroupPhotos.NotBookNames | src/blt/group_photos.py:10 | `Book_001`, `book_12`, `book_001x` and a name with two trailing newlines are not book folders |
| GroupPhotos.BookNameTrailingNewline | src/blt/group_photos.py:10-13 | `"book_001\n"` matches, because `$` matches before a final newline, and parses to 1 |
| GroupPhotos.ParseBook | src/blt/group_photos.py:10-13 | for names written with ASCII digits, yields an index exactly when the name matches the pattern, and that index is the parsed number |
| GroupPhotos.MaxParsed | src/blt/group_photos.py:11-14 | the maximum of the parsed values: None exactly when nothing parses, otherwise a parsed value no parsed value exceeds |
| GroupPhotos.NextIndex | src/blt/group_photos.py:10-14 | the index `_next_book_index` returns is at least 1 |
| GroupPhotos.NextIndexSpec | src/blt/group_photos.py:10-14 | the next index is at least 1, above every existing book index, 1 when no directory matches, and otherwise exactly one more than an existing index |
| GroupPhotos.NextIndexFromMax | src/blt/group_photos.py:11-14 | "1 if nothing matched else max + 1" is the next index |
| GroupPhotos.NextBookIndex | src/blt/group_photos.py:8-14 | `_next_book_index` returns the next index of the grouped root's directories (ASCII digits only) |
| GroupPhotos.NextIndexOfTop | src/blt/group_photos.py:13-14 | a book folder that no other book folder exceeds decides the next index: its index plus one |
| GroupPhotos.FreshBookName | src/blt/group_photos.py:14-17 | the folders numbered from the next index on do not exist yet |
| GroupPhotos.PositionNameInjective | src/blt/group_photos.py:41-42 | two photos of a batch at different positions get different file names |
| GroupPhotos.PositionNameDigit | src/blt/group_photos.py:42 | for positions 1 to 9 the name is `0`, the digit, then the lower-cased suffix |
| GroupPhotos.ExamplePositionJpg | src/blt/group_photos.py:42 | `b.jpg` at position 1 becomes `01.jpg` |
| GroupPhotos.ExamplePositionHeic | src/blt/group_photos.py:42 | `c.heic` at position 2 becomes `02.heic` |
| GroupPhotos.BatchFolderSpec | src/blt/group_photos.py:77-78 | a filled folder holds photo k of the batch under `{k+1:02d}{suffix}`, nothing else, one file per photo |
| GroupPhotos.ChronologicalMember | src/blt/group_photos.py:56-61 | only image entries of the pool are ever batched |
| GroupPhotos.ChronologicalLength | src/blt/group_photos.py:56-61 | the sorted list holds as many entries as the pool has images |
| GroupPhotos.ChronologicalDistinct | src/blt/group_photos.py:56-61 | with unique names, the pool and its sorted images have no duplicates |
| GroupPhotos.ChronologicalOfSorted | src/blt/group_photos.py:56-61 | a pool of images already in mtime order is its own sorted list |
| GroupPhotos.FloorDiv | src/blt/group_photos.py:63 | Python's `//`: Dafny's division for a positive divisor, negative for a negative divisor and a positive dividend |
| GroupPhotos.FloorDivBatches | src/blt/group_photos.py:63 | `P // N` batches fit in P photos and one more does not |
| GroupPhotos.WholeBatchesUnique | src/blt/group_photos.py:63 | the only k with k·N ≤ P < (k+1)·N is `P // N`, leaving `P % N` |
| GroupPhotos.GroupCount | src/blt/group_photos.py:63-69 | k batches fit, one more would not fit unless the cap stopped it, and the cap (clipped at 0) bounds k |
| GroupPhotos.GroupCountLeftover | src/blt/group_photos.py:63-82 | without a cap, the leftover is `P % N`, below N |
| GroupPhotos.BookNamesAt | src/blt/group_photos.py:74-79 | the j-th created folder is `book_{start+j:03d}` |
| GroupPhotos.BookNamesDistinct | src/blt/group_photos.py:74-79 | the created folders are pairwise distinct |
| GroupPhotos.BookNamesFresh | src/blt/group_photos.py:71-76 | none of the created folders existed before |
| GroupPhotos.NextIndexFresh | src/blt/group_photos.py:71-76 | the folders from the next index on are absent from the grouped root |
| GroupPhotos.AddBatchesKeys | src/blt/group_photos.py:74-79 | after k passes the grouped root has its old directories plus the k new folders |
| GroupPhotos.AddBatchesKeeps | src/blt/group_photos.py:74-79 | existing directories keep their files |
| GroupPhotos.AddBatchesAt | src/blt/group_photos.py:74-79 | folder `start+j` holds exactly batch j, `imgs[j*N:(j+1)*N]`, numbered from 01 |
| GroupPhotos.AddBatchesNone | src/blt/group_photos.py:74 | zero passes change nothing |
| GroupPhotos.AddBatchesNext | src/blt/group_photos.py:74-79 | pass g adds folder `start+g` with batch g on top of the first g passes |
| GroupPhotos.BookNamesBelow | src/blt/group_photos.py:74-76 | a book folder among those numbered `start` to `start+k-1` has an index below `start+k` |
| GroupPhotos.AddedNamesBelow | src/blt/group_photos.py:10-17 | after adding the folders numbered from the next index to next+k-1, every book folder's index is below next+k |
| GroupPhotos.NextIndexAfterNames | src/blt/group_photos.py:10-17 | adding the k > 0 folders numbered from the next index on raises the next index by exactly k |
| GroupPhotos.NextAfterBatches | src/blt/group_photos.py:71-79 | after `group_all` created k > 0 folders, the next call allocates the index right after them, so indices across calls are consecutive |
| GroupPhotos.NextAfterLastSet | src/blt/group_photos.py:39-42 | after `group_last_set` created a folder, the next call allocates the index right after it |
| GroupPhotos.NextIndexOfFirst | src/blt/group_photos.py:10-14 | with `book_001` to `book_i` present, the next index is i + 1 |
| GroupPhotos.IndexReusedAfterDelete | src/blt/group_photos.py:10-14 | with `book_001` to `book_i` present, deleting `book_i` makes the next index i again: indices can be reused |
| GroupPhotos.WithoutPrefixes | src/blt/group_photos.py:74-78 | removing batch after batch from the pool removes the whole prefix moved so far |
| GroupPhotos.RemoveSliceCount | src/blt/group_photos.py:38-42 | moving a slice of the sorted images out of the pool leaves one entry fewer per moved photo, and keeps every other entry |
| GroupPhotos.LastSetRemainder | src/blt/group_photos.py:34-42 | after `group_last_set` with 1 ≤ N ≤ P, P − N images remain and every entry not moved is still in the pool |
| GroupPhotos.GroupAllThenNothing | src/blt/group_photos.py:63-82 | after an uncapped `group_all`, `P % N` images remain, and a second call creates nothing |
| GroupPhotos.ExampleImages | src/blt/group_photos.py:6 | `a.jpg`, `b.jpg` and `c.heic` are images |
| GroupPhotos.ExampleSuffixes | src/blt/group_photos.py:27 | the lower-cased suffixes of `a.jpg` and `c.heic` are `.jpg` and `.heic` |
| GroupPhotos.LastSetExample | src/blt/group_photos.py:32-38 | for photos a, b, c with mtimes 1, 2, 3, the sorted list is a, b, c, and the last two (N at its default of 2) are b, c |
| GroupPhotos.FirstBookName | src/blt/group_photos.py:16-17 | the folder for index 1 is `book_001` |
| GroupPhotos.ExampleFolder | src/blt/group_photos.py:41-42 | the batch b.jpg, c.heic is filed exactly as `01.jpg` and `02.heic` |
| GroupPhotos.ExampleRemainder | src/blt/group_photos.py:41-42 | after b.jpg and c.heic are moved, only a.jpg is left in the pool |
| GroupPhotos.LastSetScenario | src/blt/group_photos.py:21-44 | the whole scenario through `group_last_set`: the call returns `book_001`, which holds `01.jpg` (b) and `02.heic` (c), and the pool keeps only a.jpg |
| GroupPhotos.PhotoStore.constructor | src/blt/group_photos.py:25-26 | the store starts from the given raw pool and grouped root |
| GroupPhotos.PhotoStore.MakeDest | src/blt/group_photos.py:16-19 | for a grouped root of directories, `_make_dest` returns `book_{i:03d}`, creates it empty if missing, keeps it if present, and changes nothing else |
| GroupPhotos.PhotoStore.MoveInto | src/blt/group_photos.py:42 | one rename takes the photo out of the pool and files it in the folder under its position name |
| GroupPhotos.PhotoStore.MoveNext | src/blt/group_photos.py:77-78 | pass i of the rename loop extends the folder and the removed set by photo i |
| GroupPhotos.PhotoStore.MoveBatch | src/blt/group_photos.py:77-78 | the rename loop leaves the folder holding exactly the batch, and the pool without it |
| GroupPhotos.PhotoStore.GroupBatch | src/blt/group_photos.py:39-42 | a batch goes into a new folder at the next index, and nothing else changes |
| GroupPhotos.PhotoStore.GroupLastSet | src/blt/group_photos.py:21-44 | None and no change when there are no images or fewer than N; otherwise the slice `imgs[-N:]` of the images by mtime (the N newest for N ≥ 1) goes into a fresh folder at the next index, and leaves the pool |
| GroupPhotos.PhotoStore.FillFolder | src/blt/group_photos.py:75-78 | pass g creates `book_{start+g:03d}` holding batch g and removes batch g from the pool |
| GroupPhotos.PhotoStore.FillNext | src/blt/group_photos.py:74-79 | one pass of the batch loop extends the folders to g + 1 and the removed prefix to (g + 1)·N |
| GroupPhotos.PhotoStore.FillFolders | src/blt/group_photos.py:74-79 | the loop returns the k new folder names, adds the k batches as folders, and removes exactly the first k·N images |
| GroupPhotos.PhotoStore.GroupAll | src/blt/group_photos.py:46-88 | `group_all` creates k consecutive folders from the next index, k being P // N capped by `max_groups` and clipped at 0; folder j holds batch j, the first k·N images leave the pool, and k = 0 changes nothing |
| Images.PickLastNImages | src/blt/utils/images.py:4-7 | [] when fewer than n images; the last n for 0 < n ≤ count; all images for n = 0; for n < 0, all but the first −n |
| Images.PickLastNAreLatest | src/blt/utils/images.py:6-7 | for 1 ≤ n ≤ count: n photos in ascending mtime, none of the others newer, and the others followed by them are the sorted images |
| Images.PickOnlyAccepted | src/blt/utils/images.py:5 | only `.jpg`, `.jpeg`, `.png` and `.webp` files of the folder are picked, in any case |
| Paths.ByMtimeAscending | src/blt/group_photos.py:32 | sorting by `st_mtime` yields ascending modification times |
| Paths.LatestSuffix | src/blt/group_photos.py:38 | the last n of an ascending list are ascending and no older entry is newer than them |
| Paths.SuffixShape | src/blt/group_photos.py:27 | `stem + suffix` is the name; a non-empty suffix is a dot and at least one character with no further dot |
| Paths.WithSuffixRoundTrip | src/blt/heic_convert.py:74 | `with_suffix` keeps the stem and sets the suffix |
| Paths.NameLtStrictOrder | src/blt/storage.py:13 | name order is a strict order, so `sorted` is well defined |
| Paths.PathLtStrictOrder | src/blt/heic_convert.py:90 | path order is a strict order |
| Ordering.SortSorted | src/blt/storage.py:13 | Python's sort leaves its input in order |
| Ordering.SortOfSorted | src/blt/group_photos.py:61 | sorting a list already in order changes nothing |
| Text.ZeroPadRoundTrip | src/blt/group_photos.py:13-17 | `int(f"{i:03d}")` is i |
| Text.DecimalRoundTrip | src/blt/storage.py:15 | `int(f"{t}")` is t |
| Storage.GuessMime | src/blt/storage.py:22-27 | `_guess_mime` gives one of `image/jpeg`, `image/png`, `image/webp` and `application/octet-stream`, and `image/jpeg` exactly for `.jpg` and `.jpeg` in any case |
| Storage.GuessMimeCaseInsensitive | src/blt/storage.py:22-23 | the content type does not depend on the suffix's case |
| Storage.GuessMimeKnowsUploads | src/blt/storage.py:13-27 | the table gives an image type exactly for the suffixes that are uploaded, in any case |
| Storage.UploadOrderSpec | src/blt/storage.py:13 | the uploaded files are the folder's accepted files, each once, in name order |
| Storage.UploadKeyInjective | src/blt/storage.py:15 | a key determines its time, its position and its lower-cased suffix |
| Storage.Plan | src/blt/storage.py:14-17 | one upload per selected file |
| Storage.PlanAt | src/blt/storage.py:14-17 | upload j has the key of position j + 1 at the time read in pass j, and file j's content type and bytes |
| Storage.PlanFollowsFiles | src/blt/storage.py:13-17 | upload j reads file j, and its content type is never `application/octet-stream` |
| Storage.PlanKeyAt | src/blt/storage.py:14-15 | upload j's key is the key of position j + 1 at the time read in pass j |
| Storage.PlanKeysDistinct | src/blt/storage.py:15 | the keys of one call are pairwise distinct, whatever the clock reads |
| Storage.PublicUrls | src/blt/storage.py:18-19 | one URL per upload |
| Storage.PublicUrlsAt | src/blt/storage.py:18-19 | URL j is the public URL of upload j's key |
| Storage.Bucket.constructor | src/blt/storage.py:10-11 | a fresh bucket has received no uploads |
| Storage.Bucket.Put | src/blt/storage.py:17 | an upload is appended to the bucket's log |
| Storage.Bucket.UploadPhotosAndGetUrls | src/blt/storage.py:6-20 | the bucket receives exactly the planned uploads in file order, and the URLs are theirs, in the same order |
| HeicConvert.JpegDestSpec | src/blt/heic_convert.py:74 | the JPEG sits in the same directory with the same stem and suffix `.jpg`; it is a different file and not HEIC |
| HeicConvert.PillowAttempt | src/blt/heic_convert.py:28-52 | `_heic_to_jpeg_pillow` raises exactly on an open error other than "unidentified", and returns True only after a successful save |
| HeicConvert.PillowHeifOnlyForHeic | src/blt/heic_convert.py:28-52 | the result depends on pillow-heif only for a HEIC name that `Image.open` could not identify |
| HeicConvert.PillowUnidentifiedOther | src/blt/heic_convert.py:30-46 | an unidentified image with a non-HEIC name returns False, whatever the save would do |
| HeicConvert.PillowWithoutHeif | src/blt/heic_convert.py:28-52 | without pillow-heif, True exactly when `Image.open` succeeds and the save succeeds |
| HeicConvert.ExeLookupCached | src/blt/heic_convert.py:20-21 | a cached location is returned without a lookup |
| HeicConvert.ExeLookupOnce | src/blt/heic_convert.py:17-24 | once a lookup finds a non-empty location, later calls return it without looking up again |
| HeicConvert.FfmpegAttemptSpec | src/blt/heic_convert.py:54-65 | ffmpeg succeeds exactly when the location was found, the process returned 0 and the destination exists; it adds at most the destination |
| HeicConvert.FileConversionGate | src/blt/heic_convert.py:72-73 | a non-HEIC file gives None and changes nothing; a HEIC file is handed to the decoders once |
| HeicConvert.FileConversionResult | src/blt/heic_convert.py:74-80 | a returned path is the `.jpg` beside a HEIC source, and it exists |
| HeicConvert.FileConversionSource | src/blt/heic_convert.py:75-80 | the source disappears exactly when conversion succeeded, deletion was asked for and `unlink` succeeded |
| HeicConvert.FfmpegOnlyAfterPillow | src/blt/heic_convert.py:75 | the log of ffmpeg runs grows by the source exactly when the file is HEIC and Pillow returned False, and is unchanged otherwise; without an ffmpeg run the cache and lookup count stay, and with one and nothing cached the location is looked up |
| HeicConvert.FileConversionLookups | src/blt/heic_convert.py:17-24 | one conversion leaves the cache alone or performs the first lookup and caches its result |
| HeicConvert.FolderOrderSpec | src/blt/heic_convert.py:87-90 | the walk visits the globbed entries once each in path order; a non-recursive walk sees only top-level entries |
| HeicConvert.FolderRaisedStays | src/blt/heic_convert.py:90-93 | an exception ends the walk; later entries change nothing |
| HeicConvert.FolderAttempts | src/blt/heic_convert.py:90-92 | a finished walk hands exactly the HEIC files to the decoders, in order, and nothing else |
| HeicConvert.FolderFfmpegRuns | src/blt/heic_convert.py:75-92 | a finished walk runs ffmpeg exactly for the HEIC files Pillow returned False for, each once, in the walk's order |
| HeicConvert.FolderCreated | src/blt/heic_convert.py:90-94 | the result is the JPEGs of a subsequence of the HEIC files, in the walk's order |
| HeicConvert.FolderLookups | src/blt/heic_convert.py:17-24 | a whole walk looks the ffmpeg location up at most once, and not at all when it is cached |
| HeicConvert.Dests | src/blt/heic_convert.py:74 | one JPEG path per source path |
| HeicConvert.Converter.constructor | src/blt/heic_convert.py:17 | at import nothing is cached |
| HeicConvert.Converter.GetFfmpegExe | src/blt/heic_convert.py:18-24 | `_get_ffmpeg_exe` is the cache-or-lookup step |
| HeicConvert.Converter.HeicToJpegFfmpeg | src/blt/heic_convert.py:54-65 | `_heic_to_jpeg_ffmpeg` is the ffmpeg step |
| HeicConvert.Converter.ConvertFile | src/blt/heic_convert.py:67-80 | `convert_file` is the gate, Pillow, ffmpeg and deletion step, with the properties above |
| HeicConvert.Converter.ConvertFolder | src/blt/heic_convert.py:82-94 | `convert_folder` is the loop over the sorted glob, with the properties above |
| DescribeBook.TitleRule | src/blt/describe_book.py:7 | `str.title()`: a letter at the start or after a non-letter is upper-cased, a letter after a letter lower-cased, other characters kept |
| DescribeBook.TitleIdempotent | src/blt/describe_book.py:7 | title-casing a title changes nothing |
| DescribeBook.BookTitleAt | src/blt/describe_book.py:7 | position by position the title is the name with `_` as a space and each letter cased by the one before; same length, no `_` |
| DescribeBook.BookTitleNoUnderscore | src/blt/describe_book.py:7 | the title contains no `_` |
| DescribeBook.BookTitleExample | src/blt/describe_book.py:7 | `book_001` becomes `Book 001` |
| DescribeBook.DescribeBookFromFolder | src/blt/describe_book.py:4-22 | the record's title is as long as the folder name, and author, ISBN and genre are None |
| DescribeBook.DescribeShape | src/blt/describe_book.py:7-22 | the record's title is the folder's title; author, ISBN and genre are None; the description opens with `TÍTULO: ` and the title |
| FixEncoding.IsUtf16Bom | fix_encoding.py:3-4 | `is_utf16_bom` holds only for content of at least two bytes |
| FixEncoding.IsUtf16BomSpec | fix_encoding.py:3-4 | `is_utf16_bom(b)` holds exactly when b begins FF FE or FE FF |
| FixEncoding.ShortHasNoBom | fix_encoding.py:4 | fewer than two bytes never carry a mark |
| FixEncoding.Head | fix_encoding.py:8 | `data[:4]` is a prefix of at most four bytes |
| FixEncoding.BomOfHead | fix_encoding.py:8 | testing `data[:4]` is testing the whole data |
| FixEncoding.NeedsFixSpec | fix_encoding.py:8 | a file needs fixing exactly when it holds a zero byte or starts with a mark |
| FixEncoding.FixResultSpec | fix_encoding.py:8-14 | only a file that needs fixing and decodes is rewritten, to the encoding of its decoding; a file that fails to decode is skipped unchanged |
| FixEncoding.CleanFileUntouched | fix_encoding.py:8 | a file with no zero byte and no mark is untouched, whatever the codecs do |
| FixEncoding.TextFile.FixFile | fix_encoding.py:6-14 | `fix_file` reports and leaves the bytes as the fixing step says |

## Left out

- `PhotoStore` renames: they are assumed to succeed. Name clashes with a file left in the raw folder, permissions and cross-device moves are not modelled.
- The `mkdir` of the grouped root (`base.mkdir`): the grouped root is assumed present. Plain files lying directly in the grouped root are not modelled: `_next_book_index` skips them (`p.is_dir()`), but they still occupy names.
- `GroupPhotos.PhotoStore.MakeDest`: when a plain file already bears the name `book_{index:03d}`, `mkdir(parents=True, exist_ok=True)` raises FileExistsError; the model creates the folder instead. With `book_001` to `book_003` and a plain file `book_004`, `group_last_set` and `group_all` raise there in Python, and that path is not modelled (`GroupLastSet`, `GroupBatch`, `FillFolder` and `GroupAll` inherit this).
- The raw folder's entries are not split into files and directories. An entry named like an image is batched whatever it is, as the code does for a directory named `x.jpg`.
- Modification times are integers. Floating-point mtimes and their ties are not modelled beyond equal keys keeping listing order.
- Case mapping covers ASCII only (`Text.Lower`, `DescribeBook.Title`). Other characters keep their case and count as uncased, whereas Python title-cases them with the Unicode rules.
- `rich` printing, the `leftover` and `created` messages, the CLI (`src/blt/cli.py`) and the module-level loops of `fix_encoding.py` and `check_nulls.py`: these are I/O.
- `settings` and `config.py`: N, the cap, the Vinted location and shipping, and the public-URL function are parameters. `PHOTOS_PER_BOOK_DEFAULT` records the default of 2, used in the example scenario.
- The Supabase client: the bucket is a log of uploads. Network errors, the bucket name and the returned URL format are not modelled; `get_public_url` is a function parameter.
- `int(time())` is a clock parameter, `clock(j)` being the reading in pass j.
- The price in `describe_book.py` (lines 8 and 20) is computed with floats. It enters the description only as already formatted text, and the record has no price field.
- Image decoding, the ffmpeg process, `unlink`, `bytes.decode("utf-16")` and the UTF-8 encoding of `write_text` are oracles.
  - A failed Pillow save is assumed to leave no partial file.
  - Write errors in `fix_file` are not modelled.
  - The JPEG quality reaches only the Pillow save oracle; ffmpeg is always run with `-q:v 2`.
- The recursive glob's directory structure is a flat listing of relative paths. A file that appears or disappears during the walk is not modelled; `convert_folder` sorts the listing before it starts.
- `Ordering.Sort`: an insertion sort that is stable like Python's Timsort. That it is the same permutation Timsort produces holds because both are stable sorts by the same key; this is not proved further.
- `HeicConvert.FolderCreated`: states which JPEGs come back as a subsequence of the HEIC files. Which of them succeeded is given by `FolderConversion`, which the `ConvertFolder` method matches exactly.
- `GroupPhotos.IsBookName`, `GroupPhotos.ParseBook`: accept ASCII digits only. Python's `\d` and `int()` also accept other Unicode decimal digits, so a folder such as `book_١٢٣` counts as book 123 there but is ignored here.
- `GroupPhotos.NextBookIndex`: for the same reason, folders named with non-ASCII decimal digits do not raise the next index, whereas they do in Python.
- `Storage.Bucket.UploadPhotosAndGetUrls`: reading each file (`p.open("rb")`) is assumed to succeed. An entry that is a directory named like a photo (which `group_photos` can file as `01.jpg`) or an unreadable file raises IsADirectoryError or another OSError in Python, after the earlier files are already in the bucket and with no URLs returned. Those read errors and the partial uploads they leave are not modelled.
- `Storage.UploadOrderSpec`: the order is case-sensitive code-point order of the names, which is what `sorted()` on paths does on POSIX systems. Windows paths compare case-folded, so there `B.jpg` would come before `a.jpg`; this is not modelled.
- `HeicConvert.FolderOrderSpec`: the walk order is POSIX path order, compared case-sensitively component by component; the case-folded order of Windows paths is not modelled.
