# PicChronicle in Dafny

A model of the three pieces of PicChronicle whose logic can be stated on its
own:

- **Photo placement** (`src/picchronicle.py`). It converts EXIF GPS
  degree/minute/second rationals to signed decimal degrees and pulls the four
  GPS tags out of an EXIF map. A reverse-geocoded address gives the place
  name. It filters image names by extension and picks the capture date
  (EXIF date, then file date, then "now"). It builds the folder
  `DEST/YYYY/MM/DD[/Place]`, picks a free name with the first-fit
  `name_k.ext` loop, and moves each image of a directory walk
  (`photo_placement.dfy`, module `PicChronicle`).
- **Cloud replication** (`src/copy_media_for_cloud.py`). It reads
  `metadata.json`, and copies either the IMAGES/VIDEOS entries of that ledger
  or, as a fallback, the media files of a directory walk that passes over
  "raw" directories. Both strategies keep the relative layout, never
  overwrite, and count copies and skips (`media_copy.dfy`, module
  `MediaCopy`).
- **USB watcher** (`usb_watcher.py`). It sorts extensions into categories,
  diffs the drive's `path -> hash` map against the saved record and counts
  the new files per category. It writes and re-reads the `path::hash` record
  file, and runs the polling loop. That loop scans on insertion, asks the
  user and saves the record only after a "y" (`usb_watcher.dfy`, module
  `UsbWatcher`).

Shared pieces:

- `text.dfy` (module `Text`): the Python string built-ins the scripts use.
  These are `lower`, `endswith`, substring `in`, `strip` and decimal
  printing with zero padding.
- `paths.dfy` (module `Paths`): `os.path` on paths written as lists of
  segments. These are `basename`, `dirname`, `relpath` and `splitext`, plus
  the extension of a path held as one string.
- `wrappers.dfy`: `Option`.

Loops of the source are methods with loop invariants, each proved equal to a
specification function:

- the collision loop;
- the walk over files in `main`;
- both copy passes;
- the `stats` loop;
- the writer of the record file;
- the `while True` loop of the watcher.

The lemmas then prove what the scripts promise about those functions.
Everything the scripts obtain from outside is an input value:

- EXIF decoding, file timestamps, the geocoder, the clock and `os.walk`;
- whether a move or copy raises, and the drive's hashes;
- the user's answer at the prompt.

A file system is a set of existing paths for the organiser. The destination
of the copy is a map from path to contents.

Three behaviours of the code are worth stating plainly:

- The destination folder is `DEST/year/month/day[/place]`. There is no
  category segment.
- A missing date falls back to `datetime.now()`. No image goes to an
  "Unknown_Date" folder, although the log message names one.
- The walk fallback skips only the files of a directory whose own name
  contains "raw". Its subdirectories are still walked
  (`MediaCopy.EditsBelowRawNotRaw`).

In one place the model follows what the code evidently intends rather than
what it does. `get_gps_coords` looks the GPS directory up under the name
'GPSInfo', but `_getexif` keys its map by tag number (see "## Findings").
The organiser of the model looks it up by tag number; the lookup as written
is modelled beside it.

## Model

| member | source | states |
|---|---|---|
| PicChronicle.DecimalFromDms | src/picchronicle.py:55-61 | defined exactly when the value has three parts with non-zero denominators; then it is d + m/60 + s/3600, negated exactly for "S" and "W" |
| PicChronicle.HemisphereSymmetry | src/picchronicle.py:61 | for every triple, the "S" result is the negation of the "N" result and "W" that of "E" |
| PicChronicle.DecimalWithinDegree | src/picchronicle.py:57-61 | for a well-formed angle the magnitude lies in [d, d+1) and the sign is the hemisphere's |
| PicChronicle.DmsTestExamples | tests/test_picchronicle.py:26-38 | 10°20'30" is exactly 1241/120 for N, its negation for S, within 5 decimals of the expected value |
| PicChronicle.GpsFromInfo | src/picchronicle.py:45-53 | no coordinates exactly when GPSInfo is absent, empty or lacks one of the four tags; coordinates are the two DMS conversions; it raises exactly when a present GPSInfo is not a directory or a coordinate cannot be converted |
| PicChronicle.TagKeyedExifHasNoGps | src/picchronicle.py:44 | as written, an EXIF map keyed by tag numbers never gives coordinates, so the place folder is always empty |
| PicChronicle.ByTagReadsCameraGps | src/picchronicle.py:44-52 | the corrected lookup turns a complete GPS directory filed under tag 34853 into its two DMS conversions |
| PicChronicle.ByTagAgreesOnNamedMaps | src/picchronicle.py:44 | without a tag-number entry the corrected lookup gives what the original gives |
| PicChronicle.GpsTestExample | tests/test_picchronicle.py:40-63 | the test's GPS directory, filed under 'GPSInfo', decodes to (1241/120, 2451/60) under both lookups |
| PicChronicle.CameraGpsExample | src/picchronicle.py:44 | the same directory filed under tag 34853 gives no coordinates as written and (1241/120, 2451/60) when corrected |
| PicChronicle.FirstPresent | src/picchronicle.py:68-69 | the index of the first address key present, none exactly when no key is present |
| PicChronicle.Underscored | src/picchronicle.py:70 | same length, each space turned into '_', the other characters kept, no space left |
| PicChronicle.ReverseGeocode | src/picchronicle.py:63-75 | a name exactly when an address came back with one of city/town/village/county/state; the name has no spaces; it is the underscored value of the first of those keys, in that order, that the address holds |
| PicChronicle.IsImageFileSpec | src/picchronicle.py:111-113 | a name is an image iff its lower-cased form ends with one of .jpg .jpeg .png .tiff .bmp |
| PicChronicle.ImageFileIgnoresCase | src/picchronicle.py:113 | a name and its lower-case form are judged alike |
| PicChronicle.ImageByExtension | src/picchronicle.py:113 | any stem followed by an accepted extension in any letter case is an image |
| PicChronicle.UpperCaseImageAccepted | src/picchronicle.py:113 | "IMG_0001.JPG" is an image |
| PicChronicle.NotImageByLastChar | src/picchronicle.py:113 | a name whose last letter is not g, f or p in either case is not an image |
| PicChronicle.OtherFilesRejected | src/picchronicle.py:113 | "clip.mp4" and "photo.jpg.txt" are not images |
| PicChronicle.BestDate | src/picchronicle.py:86-89 | EXIF date if present, else file date, else now; valid inputs give a valid date |
| PicChronicle.DestinationFolder | src/picchronicle.py:91-95 | DEST followed by 4-, 2- and 2-digit segments that read back as year, month and day, then the place only when it is non-empty |
| PicChronicle.FolderDeterminesDateAndPlace | src/picchronicle.py:91-95 | two images share a folder only when they share date and place |
| PicChronicle.CandidateInjective | src/picchronicle.py:101-104 | distinct counters give distinct candidate names |
| PicChronicle.SlotsCard | src/picchronicle.py:102-105 | the first c names tried are c distinct paths, which bounds the loop by the number of existing paths |
| PicChronicle.FreeSuffix | src/picchronicle.py:102-105 | from a counter below which every candidate exists, the search ends on the first free suffix, at or above that counter |
| PicChronicle.ResolveCollision | src/picchronicle.py:98-105 | the loop ends on a path that does not exist; it is the original name or base_k ext, every earlier candidate exists (first fit), and the suffix is the one FreeSuffix finds |
| PicChronicle.FirstFreeUnique | src/picchronicle.py:102-105 | there is only one first-free suffix, so the chosen one is the smallest free one |
| PicChronicle.SplitExtAppend | src/picchronicle.py:101-104 | for base.ext the suffix goes between base and the final dot |
| PicChronicle.CollisionNames | src/picchronicle.py:104 | IMG_0001.jpg is retried as IMG_0001_1.jpg, then IMG_0001_2.jpg |
| PicChronicle.CollisionExample | src/picchronicle.py:102-105 | with IMG_0001.jpg taken the first free suffix is 1, and with IMG_0001_1.jpg taken as well it is 2 |
| PicChronicle.OrganizeSpec | src/picchronicle.py:77-109 | nothing changes when the image cannot be opened or GPS decoding raises, and those outcomes happen exactly then; otherwise the folder and its parents exist, the target is the first free candidate there, and the move succeeds exactly when the move does not raise, replacing the image by the target; only the image can disappear |
| PicChronicle.OrganizeImage | src/picchronicle.py:77-109 | the outcome and the new file system are those Organize prescribes, whose properties OrganizeSpec states |
| PicChronicle.AfterOrganizingRemovesOnlyImages | src/picchronicle.py:115-120 | handling a sequence of images removes no path except some of those images |
| PicChronicle.ImagesIn | src/picchronicle.py:118-119 | every selected path lies in the walked directory and names an image |
| PicChronicle.ImagePaths | src/picchronicle.py:117-119 | every path of the walk that is handled names an image |
| PicChronicle.ImagesInExact | src/picchronicle.py:118-119 | a path is selected from a listing exactly when it is the directory joined with a listed file that is an image |
| PicChronicle.ImagePathsExact | src/picchronicle.py:117-119 | a path is handled by the walk exactly when it is a walked directory joined with one of its image files |
| PicChronicle.OrganizeNext | src/picchronicle.py:118-120 | one file adds itself to the handled images exactly when it is an image, the file system is the fold of organize_image over the handled images, and it fails exactly when it is an image whose GPS decoding raises |
| PicChronicle.StopsAtFirstFailure | src/picchronicle.py:92 | a run that stops at an image whose GPS decoding raised stops at a failing image of the walk |
| PicChronicle.OrganizeFiles | src/picchronicle.py:118-120 | the images of one directory are handled in listing order, a prefix of them; the loop stops exactly when one of them fails, at the first failing one; the file system is the fold of organize_image over the handled images |
| PicChronicle.OrganizeEntry | src/picchronicle.py:117-120 | one directory of the walk extends the handled images by its own images, or stops at the first of them that fails; the file system stays the fold over the handled images |
| PicChronicle.OrganizeAll | src/picchronicle.py:115-120 | the handled images are a prefix of the walk's images in walk order: all of them when none fails, and otherwise up to and including the first failing one; the run stops exactly when an image of the walk fails; the file system is the fold of organize_image over the handled images |
| MediaCopy.CopyOne | src/copy_media_for_cloud.py:47-58 | one copy step: an existing target is skipped and counted; otherwise a copy that cannot succeed changes nothing, and any other copy adds the file and counts it |
| MediaCopy.RunKeepsExisting | src/copy_media_for_cloud.py:47-51 | a pass never overwrites or removes a file that was at the destination |
| MediaCopy.RunAddsOnlyPlanned | src/copy_media_for_cloud.py:53-56 | every new file is a planned target holding its planned source's content |
| MediaCopy.RunCounts | src/copy_media_for_cloud.py:47-58 | copied_count equals the number of files added, and copied + skipped never exceeds the number of planned copies |
| MediaCopy.RunSettles | src/copy_media_for_cloud.py:47-58 | after a pass, each planned target exists unless its copy cannot succeed |
| MediaCopy.RunSettledIsNoop | src/copy_media_for_cloud.py:47-51 | a pass over settled copies changes nothing and copies nothing |
| MediaCopy.RunIdempotent | src/copy_media_for_cloud.py:47-58 | a second pass over an unchanged source, with the same copies failing, copies nothing and leaves the destination as it was |
| MediaCopy.SecondPassAddsOnlyRetries | src/copy_media_for_cloud.py:47-58 | the files a second pass adds are targets of planned copies whose source exists and whose first copy raised |
| MediaCopy.SecondPass | src/copy_media_for_cloud.py:47-58 | whatever copies fail in a second pass, it keeps every file of the first, adds only targets whose copy raised in the first pass and copies at most that many; when every copy that raised raises again, it changes nothing |
| MediaCopy.MirrorPathBelow | src/copy_media_for_cloud.py:41-45 | a file inside the source folder is copied to the same relative place under the destination |
| MediaCopy.MirrorPathInjective | src/copy_media_for_cloud.py:41-45 | two different source files never share a destination |
| MediaCopy.MetadataPlan | src/copy_media_for_cloud.py:35-45 | at most one copy per entry, each of an existing source to its mirrored path |
| MediaCopy.MetadataPlanExact | src/copy_media_for_cloud.py:35-45 | a copy is planned exactly when it takes the file of an IMAGES or VIDEOS entry that exists in the source to its mirrored path |
| MediaCopy.LedgerFilesArrive | src/copy_media_for_cloud.py:35-58 | after the ledger pass, the mirrored path of every IMAGES or VIDEOS entry whose file exists and copies without error is at the destination |
| MediaCopy.MetadataPlanFromLedger | src/copy_media_for_cloud.py:35-39 | every planned copy comes from an IMAGES or VIDEOS entry; RAW and other types are never copied |
| MediaCopy.CopyEntry | src/copy_media_for_cloud.py:36-58 | one ledger entry is handled exactly as its part of the plan prescribes |
| MediaCopy.CopyFromMetadata | src/copy_media_for_cloud.py:25-61 | False with nothing done exactly when there is no "files" key; otherwise the ledger's plan, in order, gives the new destination and both counters |
| MediaCopy.WantedSpec | src/copy_media_for_cloud.py:77-78 | a walked file is taken iff it is not metadata.json and its lower-cased name ends with one of the seven media extensions |
| MediaCopy.RawInName | src/copy_media_for_cloud.py:72 | "raw" in any letter case anywhere in the directory's own name makes it skipped |
| MediaCopy.NoRawWithoutR | src/copy_media_for_cloud.py:72 | a directory whose name contains no r or R is never skipped |
| MediaCopy.RawDirectoryExamples | src/copy_media_for_cloud.py:72 | "RAW" and "Canon_Raw_Files" directories are skipped |
| MediaCopy.EditsBelowRawNotRaw | src/copy_media_for_cloud.py:70-73 | a subdirectory "edits" of a RAW directory is still walked |
| MediaCopy.FilesPlan | src/copy_media_for_cloud.py:75-87 | at most one copy per listed file, each of a wanted file of that directory to the mirrored directory |
| MediaCopy.FilesPlanExact | src/copy_media_for_cloud.py:75-87 | a copy is planned for a directory exactly when it takes one of its wanted listed files to the mirrored directory |
| MediaCopy.WalkPlan | src/copy_media_for_cloud.py:70-87 | every planned copy is a wanted file outside raw directories, copied to its mirrored directory |
| MediaCopy.WalkPlanSound | src/copy_media_for_cloud.py:70-87 | every copy of the walk plan belongs to the plan of one walked directory |
| MediaCopy.WalkPlanComplete | src/copy_media_for_cloud.py:70-87 | every copy planned for a walked directory is in the walk plan |
| MediaCopy.WalkPlanExact | src/copy_media_for_cloud.py:70-87 | a copy is planned exactly when it takes a wanted file of a walked directory without "raw" in its name to the mirrored directory |
| MediaCopy.WalkFilesArrive | src/copy_media_for_cloud.py:70-100 | after the walk pass, every wanted file of a non-raw walked directory that exists and copies without error is at its mirrored place |
| MediaCopy.WalkPlanMirrors | src/copy_media_for_cloud.py:80-87 | for roots inside the source folder each walked file lies strictly inside it and lands at the same relative place, as the ledger strategy would put it |
| MediaCopy.CopyFile | src/copy_media_for_cloud.py:76-100 | one listed file is handled exactly as its part of the plan prescribes |
| MediaCopy.CopyDirectory | src/copy_media_for_cloud.py:75-100 | the files of one directory are handled as their plan prescribes, in listing order |
| MediaCopy.CopyByDirectoryStructure | src/copy_media_for_cloud.py:63-102 | the walk's plan, in walk order, gives the new destination and both counters |
| MediaCopy.Replicate | src/copy_media_for_cloud.py:104-123 | the walk is used exactly when metadata.json is absent, corrupt or has no "files" key; otherwise the ledger is used |
| UsbWatcher.ExtensionCategorySpec | usb_watcher.py:56-61 | a category other than Other only for an extension on its list, and Other only for one on no list |
| UsbWatcher.ExtensionCategoryExact | usb_watcher.py:17-21 | since the lists are disjoint, an extension gets a category iff it is on that category's list |
| UsbWatcher.ExtensionCategoryIgnoresCase | usb_watcher.py:57 | an extension and its lower-case form get the same category |
| UsbWatcher.ExtensionCategoryExamples | usb_watcher.py:56-61 | ".JPG" is Images, ".Cr2" RAW, ".mkv" Videos, ".txt" and "" Other |
| UsbWatcher.NewFiles | usb_watcher.py:64-65 | a sub-map of the current hashes with their values unchanged |
| UsbWatcher.NewFilesExact | usb_watcher.py:64-65 | a current path is reported iff it is absent from the record or its hash differs |
| UsbWatcher.NewFilesExtremes | usb_watcher.py:64-65 | an unchanged drive reports nothing; with an empty record everything is new |
| UsbWatcher.CountsAdd | usb_watcher.py:68-71 | one more path adds one to its own category and nothing to the others |
| UsbWatcher.CategoriesPartition | usb_watcher.py:67-71 | every path counts in exactly one category |
| UsbWatcher.StatsTotal | usb_watcher.py:67-72 | stats has exactly the four keys and its counts add up to len(new_files) |
| UsbWatcher.UnchangedDriveCountsNothing | usb_watcher.py:63-72 | when current equals previous every count is zero |
| UsbWatcher.CountCategories | usb_watcher.py:67-71 | the counting loop's result is the number of paths in each category |
| UsbWatcher.ClassifyNewFiles | usb_watcher.py:63-72 | returns the diff and its per-category counts |
| UsbWatcher.SaveCurrentHashes | usb_watcher.py:51-54 | the text written is one path::hash line per entry in dictionary order |
| UsbWatcher.LinesConcat | usb_watcher.py:48 | readlines loses nothing: its lines put together are the text |
| UsbWatcher.LinesSnoc | usb_watcher.py:48 | a complete line after complete lines is read as one more line |
| UsbWatcher.FindSeparatorSpec | usb_watcher.py:49 | finds "::" exactly when there is one, and then the first one |
| UsbWatcher.SplitJoin | usb_watcher.py:49 | split("::") loses nothing: joining its parts with "::" gives the text back |
| UsbWatcher.ParseRecordIgnoresPlainLines | usb_watcher.py:49 | a record made only of lines without "::" loads as the empty map |
| UsbWatcher.ParseRecordSkipsPlainLine | usb_watcher.py:49 | a line without "::" anywhere in a record changes nothing: the record loads as if the line were not there |
| UsbWatcher.ParseRecordLine | usb_watcher.py:49 | a written line is recognised and reads back as its (path, hash) pair |
| UsbWatcher.ParseRecordSnoc | usb_watcher.py:49 | each further record line overrides the entry for its path |
| UsbWatcher.LoadPreviousHashes | usb_watcher.py:44-46 | an absent record file loads as the empty map |
| UsbWatcher.RecordRoundTrip | usb_watcher.py:44-54 | saving then loading gives back the same map, for paths and hashes without "::", newlines, a path ending in ':', leading space on the path or trailing space on the hash |
| UsbWatcher.PlainLineIgnored | usb_watcher.py:49 | a record that is one line without "::" loads as the empty map |
| UsbWatcher.ThreePartLine | usb_watcher.py:49 | a line path::a::b is recognised but does not split into two parts |
| UsbWatcher.ThreePartLineRejected | usb_watcher.py:49 | a record holding such a line cannot be loaded (ValueError) |
| UsbWatcher.ColonEndingPathChanges | usb_watcher.py:49-54 | a path ending in ':' comes back without it and its hash gains a leading ':', so the restriction in RecordRoundTrip is needed |
| UsbWatcher.FlagFollowsDrive | usb_watcher.py:109-113 | after a turn that does not fail, already_connected equals whether the drive is mounted |
| UsbWatcher.ScanExactlyOnInsertion | usb_watcher.py:83-113 | a scan happens iff the drive is mounted and was not before; "removed" iff it is gone and was there before |
| UsbWatcher.SaveOnlyAfterConfirmation | usb_watcher.py:90-100 | the script runs iff new files were found and the answer is y; only then is the record rewritten, with the current hashes |
| UsbWatcher.FoundReportsTheDiff | usb_watcher.py:86-95 | a report lists the non-empty diff against the record, with counts adding up to its size |
| UsbWatcher.TraceScansOnRisingEdges | usb_watcher.py:79-113 | across a run, turn i scans iff the drive is mounted at turn i and was not at turn i-1 (or at the start) |
| UsbWatcher.NothingNewAfterConfirmedRun | usb_watcher.py:86-105 | after a confirmed run saved the record, re-inserting the same drive reports nothing new |
| UsbWatcher.HandlePoll | usb_watcher.py:81-113 | one turn of the loop gives the state and report that the transition function prescribes |
| UsbWatcher.RunWatcher | usb_watcher.py:75-113 | a run of polls gives the reports and final record of the trace, stopping at a malformed record |
| Text.EndsWithAnyExists | src/picchronicle.py:113 | endswith on a tuple holds iff one of its suffixes matches |
| Text.ParseZeroPad | src/picchronicle.py:91 | zero-padded date fields read back as the number printed |
| Text.NatToStringInjective | src/picchronicle.py:104 | distinct counters print differently |
| Text.ContainsAt | src/copy_media_for_cloud.py:72 | a substring occurring at some position makes `in` true |
| Text.ContainsNeedsFirst | src/copy_media_for_cloud.py:72 | a string without the first character of the pattern does not contain it |
| Text.StripDropsNewline | usb_watcher.py:49 | strip removes exactly the newline of a line with no blank at either end |
| Paths.RelPathBelow | src/copy_media_for_cloud.py:83 | below its base, relpath is the rest of the path, with no ".." |
| Paths.SplitExt | src/picchronicle.py:101 | base + ext is the name; ext is empty or one dot followed by no dot; a name like ".bashrc" has no extension |
| Paths.Extension | usb_watcher.py:69 | the extension is a suffix of the path: empty, or a dot followed by no dot and no separator; it is empty exactly when every dot of the last component has only dots before it: when it is empty every dot does, and when it is not, the rest of the last component is not all dots |

## Left out

- Image opening, EXIF decoding (`get_exif_date` and the contents of the map `_getexif` returns), file timestamps, the reverse geocoder, `datetime.now()` (read again for each undated image, so each image has its own value), `os.walk`, MD5 hashing (`compute_file_hash`, `get_file_hashes`), `drive_connected`, `input`, `subprocess.run` and every `print`: each is an input value or is dropped.
- `tests/test_picchronicle.py:4` imports `get_date_taken`, which `src/picchronicle.py` does not define. Only the DMS and GPS tests are modelled.
- Floating point: GPS values are exact reals, so "within 5 decimals" is stated on exact rationals.
- Text.Lower: only ASCII letters are lower-cased; Python's Unicode case mapping is not modelled.
- Text.IsSpace: a fixed set of whitespace characters stands for Python's Unicode whitespace.
- Text.ZeroPad: years are always padded to four digits; platforms where `%Y` does not pad years below 1000 are not modelled.
- UsbWatcher.Lines: only '\n' ends a line; universal-newline translation of '\r' and "\r\n" is not modelled.
- UsbWatcher.RecordRoundTrip: holds only under `Recordable`; `UsbWatcher.ColonEndingPathChanges` and `UsbWatcher.ThreePartLineRejected` show what happens outside it.
- UsbWatcher.CountCategories: stated for any tagging of paths; `ClassifyNewFiles` passes `CategoryOf`.
- UsbWatcher.RunWatcher: the endless `while True` loop and its `time.sleep` are modelled as a finite sequence of polls.
- Dictionary iteration order (`hashes.items()`) is an input that lists each key once.
- Paths: `..` segments inside paths, `os.path.normpath`, and `relpath` giving "." for equal paths are not modelled (a path equal to its base gives no segments).
- PicChronicle.OrganizeImage: the folder and its parents created by `os.makedirs` join the set of existing paths; folders and files are not told apart, and `os.makedirs` never fails.
- MediaCopy: directories are not entries of the destination tree, so only files can make a destination "exist"; `os.makedirs` never fails.
- PicChronicle.DestinationFolder: the place name is one path segment; a geocoded name holding `/` or `\`, which `os.path.join` would turn into nested folders, is not modelled.
- PicChronicle.ResolveCollision: `os.path.exists` is exact membership in the set of paths; a case-insensitive file system (as on Windows, where the configured folders are), on which IMG.jpg and img.JPG are one file, is not modelled.
- MediaCopy.MirrorPath: `os.path.relpath` raising ValueError for a source on another drive than SOURCE_FOLDER (src/copy_media_for_cloud.py:41, outside any `try`) is not modelled; the model's `RelPath` climbs out with ".." segments instead.
- MediaCopy: paths are compared exactly. On the configured Windows folders, `os.path.exists` (src/copy_media_for_cloud.py:39, 48) and `relpath` (:41) ignore letter case, so a ledger path `...\100CANON\Organized\x.jpg` under SOURCE_FOLDER `...\100CANON\organized` lands at `DEST\x.jpg` in Python, while the model's `RelPath` climbs out with ".." and then `Organized`; `Step`'s existence check and `EntryPlan`'s source check are likewise case-sensitive.
- MediaCopy.RunCounts: a copy that raises is taken to leave no file behind; a `shutil.copy2` that fails part-way can leave a truncated target that later passes skip as existing, so "copied equals files added" holds only under that assumption.
- MediaCopy.RunIdempotent: stated for a second pass in which the same copies fail; `MediaCopy.SecondPass` covers a second pass with any failing copies.
- PicChronicle.OrganizeImage: a move that raises leaves only the created folders behind; what `shutil.move` does across devices or with timestamps is not modelled.
- MediaCopy: `shutil.copy2` preserving timestamps is not modelled; a failing copy is given as the set of sources whose copy raises.
- MediaCopy.FileInfo: a ledger entry without "filepath" (where `os.path.exists(None)` raises), a "files" value that is not a list, and a JSON document that is not an object are not modelled.
- MediaCopy.LoadMetadata: a read error other than a JSON decoding error, which would escape `load_metadata`, is not modelled.

## Findings

| source | as written | input that shows it | evidently intended | confidence | as-written member | corrected member |
|---|---|---|---|---|---|---|
| src/picchronicle.py:44 | `exif_data.get('GPSInfo')` on the map from `_getexif()`, whose keys are tag numbers (the date lookup at lines 21-23 maps them to names first) | an image whose EXIF holds a complete GPS directory under tag 34853: no coordinates, so no place folder | find the GPS directory under its tag number | not executed; medium (the unit test passes a name-keyed map, so it does not see this) | PicChronicle.TagKeyedExifHasNoGps | PicChronicle.ByTagReadsCameraGps |
