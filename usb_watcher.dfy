/**
 * The USB watcher (usb_watcher.py): categorising file extensions, the diff of
 * the drive's `path -> hash` map against the saved record, the record file
 * format, and the polling loop that decides when to scan, ask and save.
 *
 * The hashing walk of the drive, the drive-presence test, the wall clock,
 * the console and the launched pipeline are outside the model: each poll of
 * the loop hands the model what those produced.
 */
module UsbWatcher {
  import opened Wrappers
  import opened Text
  import opened Paths

  // =======================================================================
  // Extension categories
  // =======================================================================

  datatype Category = Images | Raw | Videos | Other

  /** The keys of the `stats` dictionary. */
  const Categories: set<Category> := {Images, Raw, Videos, Other}

  /** `EXT_CATEGORIES`; "Other" has no list of its own. */
  function Extensions(c: Category): seq<string> {
    match c
    case Images => [".jpg", ".jpeg", ".png"]
    case Raw => [".cr2", ".nef", ".arw", ".rw2", ".orf"]
    case Videos => [".mp4", ".mov", ".avi", ".mkv"]
    case Other => []
  }

  /** `get_extension_category`: the first category whose list holds the
      lower-cased extension, else Other. */
  function ExtensionCategory(ext: string): Category {
    var e := Lower(ext);
    if e in Extensions(Images) then Images
    else if e in Extensions(Raw) then Raw
    else if e in Extensions(Videos) then Videos
    else Other
  }

  /** A category other than Other is given only to an extension on its list,
      and Other only to an extension on none. */
  lemma ExtensionCategorySpec(ext: string)
    ensures var c := ExtensionCategory(ext);
      && (c != Other ==> Lower(ext) in Extensions(c))
      && (c == Other ==> forall k :: Lower(ext) !in Extensions(k))
  {
  }

  /** The three lists share no extension, so the order in which they are tried
      does not matter: the category is the one list that holds the extension. */
  lemma ExtensionCategoryExact(ext: string, c: Category)
    requires c != Other
    ensures ExtensionCategory(ext) == c <==> Lower(ext) in Extensions(c)
  {
    ExtensionCategorySpec(ext);
  }

  lemma ExtensionCategoryIgnoresCase(ext: string)
    ensures ExtensionCategory(ext) == ExtensionCategory(Lower(ext))
  {
    LowerIdempotent(ext);
  }

  lemma ExtensionCategoryExamples()
    ensures ExtensionCategory(".JPG") == Images
    ensures ExtensionCategory(".Cr2") == Raw
    ensures ExtensionCategory(".mkv") == Videos
    ensures ExtensionCategory(".txt") == Other
    ensures ExtensionCategory("") == Other
  {
    assert Lower(".JPG") == ".jpg";
    assert Lower(".Cr2") == ".cr2";
    assert Lower(".mkv") == ".mkv";
    assert Lower(".txt") == ".txt";
  }

  // =======================================================================
  // New files and their counts
  // =======================================================================

  /** Path to hex digest, as `get_file_hashes` builds it. */
  type Hashes = map<string, string>

  /** The `new_files` comprehension of `classify_new_files`. */
  function NewFiles(current: Hashes, previous: Hashes): (r: Hashes)
    ensures forall p :: p in r ==> p in current && r[p] == current[p]
  {
    map p | p in current && (p !in previous || previous[p] != current[p]) :: current[p]
  }

  /** A file is reported exactly when it is new or its hash changed; what is not
      reported is recorded with the same hash. */
  lemma NewFilesExact(current: Hashes, previous: Hashes, p: string)
    requires p in current
    ensures p in NewFiles(current, previous) <==> p !in previous || previous[p] != current[p]
  {
  }

  /** An unchanged drive has nothing new; with no record every file is new. */
  lemma NewFilesExtremes(current: Hashes)
    ensures NewFiles(current, current) == map[]
    ensures NewFiles(current, map[]) == current
  {
  }

  /** The category a path counts under: that of `os.path.splitext(path)[1]`. */
  function CategoryOf(path: string): Category {
    ExtensionCategory(Extension(path))
  }

  /** The paths that `tag` puts under `c`. The counting below holds for any
      tagging; `Stats` uses `CategoryOf`. */
  function InCategory(paths: set<string>, tag: string -> Category, c: Category): set<string> {
    set p | p in paths && tag(p) == c
  }

  /** The count of each category over a set of paths. */
  function Counts(paths: set<string>, tag: string -> Category): map<Category, nat> {
    map[Images := |InCategory(paths, tag, Images)|, Raw := |InCategory(paths, tag, Raw)|,
        Videos := |InCategory(paths, tag, Videos)|, Other := |InCategory(paths, tag, Other)|]
  }

  /** The `stats` dictionary for a set of new files. */
  function Stats(newFiles: Hashes): map<Category, nat> {
    Counts(newFiles.Keys, CategoryOf)
  }

  lemma InCategoryAdd(paths: set<string>, tag: string -> Category, x: string, c: Category)
    requires x !in paths
    ensures |InCategory(paths + {x}, tag, c)| == |InCategory(paths, tag, c)| + (if tag(x) == c then 1 else 0)
  {
    if tag(x) == c {
      assert InCategory(paths + {x}, tag, c) == InCategory(paths, tag, c) + {x};
    } else {
      assert InCategory(paths + {x}, tag, c) == InCategory(paths, tag, c);
    }
  }

  /** One more path adds one to its own category's count and nothing elsewhere. */
  lemma CountsAdd(paths: set<string>, tag: string -> Category, x: string)
    requires x !in paths
    ensures tag(x) in Counts(paths, tag)
    ensures Counts(paths + {x}, tag) == Counts(paths, tag)[tag(x) := Counts(paths, tag)[tag(x)] + 1]
  {
    InCategoryAdd(paths, tag, x, Images);
    InCategoryAdd(paths, tag, x, Raw);
    InCategoryAdd(paths, tag, x, Videos);
    InCategoryAdd(paths, tag, x, Other);
  }

  /** Moving one element out of the part still to be visited. */
  lemma MoveOne(paths: set<string>, remaining: set<string>, x: string)
    requires remaining <= paths && x in remaining
    ensures (paths - remaining) + {x} == paths - (remaining - {x})
  {
  }

  /** The counting loop's step: adding one for a path not yet counted gives
      the counts of the larger set. */
  lemma CountsStep(stats: map<Category, nat>, seen: set<string>, tag: string -> Category, x: string)
    requires stats == Counts(seen, tag) && x !in seen
    ensures tag(x) in stats && stats[tag(x) := stats[tag(x)] + 1] == Counts(seen + {x}, tag)
  {
    CountsAdd(seen, tag, x);
  }

  /** Every path counts under exactly one category. */
  lemma {:induction false} CategoriesPartition(paths: set<string>, tag: string -> Category)
    ensures |InCategory(paths, tag, Images)| + |InCategory(paths, tag, Raw)|
            + |InCategory(paths, tag, Videos)| + |InCategory(paths, tag, Other)| == |paths|
    decreases |paths|
  {
    if paths == {} {
      assert InCategory(paths, tag, Images) == {} && InCategory(paths, tag, Raw) == {};
      assert InCategory(paths, tag, Videos) == {} && InCategory(paths, tag, Other) == {};
    } else {
      var x :| x in paths;
      var rest := paths - {x};
      CategoriesPartition(rest, tag);
      assert rest + {x} == paths;
      InCategoryAdd(rest, tag, x, Images);
      InCategoryAdd(rest, tag, x, Raw);
      InCategoryAdd(rest, tag, x, Videos);
      InCategoryAdd(rest, tag, x, Other);
    }
  }

  /** The counts have the four keys, each holding the size of its category. */
  lemma CountsShape(paths: set<string>, tag: string -> Category)
    ensures var m := Counts(paths, tag);
      && m.Keys == Categories
      && m[Images] == |InCategory(paths, tag, Images)| && m[Raw] == |InCategory(paths, tag, Raw)|
      && m[Videos] == |InCategory(paths, tag, Videos)| && m[Other] == |InCategory(paths, tag, Other)|
  {
  }

  /** `stats` has the four keys and its counts add up to `len(new_files)`. */
  lemma StatsTotal(newFiles: Hashes)
    ensures Stats(newFiles).Keys == Categories
    ensures Stats(newFiles)[Images] + Stats(newFiles)[Raw] + Stats(newFiles)[Videos]
            + Stats(newFiles)[Other] == |newFiles|
  {
    CountsShape(newFiles.Keys, CategoryOf);
    CategoriesPartition(newFiles.Keys, CategoryOf);
    assert |newFiles.Keys| == |newFiles|;
  }

  /** When the drive matches the record, nothing is reported in any category. */
  lemma UnchangedDriveCountsNothing(current: Hashes)
    ensures var s := Stats(NewFiles(current, current));
      s.Keys == Categories && forall c :: c in s ==> s[c] == 0
  {
    NewFilesExtremes(current);
    StatsTotal(map[]);
  }

  /** The counting loop of `classify_new_files`: each path adds one to the
      count of its category. The loop is stated for any tagging of paths;
      `ClassifyNewFiles` runs it with `CategoryOf`, that is with
      `get_extension_category(os.path.splitext(path)[1])`. */
  method CountCategories(paths: set<string>, tag: string -> Category) returns (stats: map<Category, nat>)
    ensures stats == Counts(paths, tag)
  {
    stats := map[Images := 0, Raw := 0, Videos := 0, Other := 0];
    var remaining := paths;
    ghost var seen: set<string> := {};
    assert forall c :: InCategory(seen, tag, c) == {};
    while remaining != {}
      invariant remaining <= paths && seen == paths - remaining
      invariant stats == Counts(seen, tag)
      decreases |remaining|
    {
      var path :| path in remaining;
      var category := tag(path);
      CountsStep(stats, seen, tag, path);
      MoveOne(paths, remaining, path);
      stats := stats[category := stats[category] + 1];
      assert stats == Counts(seen + {path}, tag);
      remaining := remaining - {path};
      seen := seen + {path};
    }
    assert seen == paths;
  }

  /** `classify_new_files`: the diff, then one count per new file. */
  method ClassifyNewFiles(current: Hashes, previous: Hashes) returns (newFiles: Hashes, stats: map<Category, nat>)
    ensures newFiles == NewFiles(current, previous)
    ensures stats == Stats(newFiles)
  {
    newFiles := NewFiles(current, previous);
    stats := CountCategories(newFiles.Keys, CategoryOf);
  }

  // =======================================================================
  // The record file
  // =======================================================================

  /** One line `f"{path}::{hash_val}\n"` of the record. */
  function RecordLine(path: string, hash: string): string {
    path + "::" + hash + "\n"
  }

  /** `order` is the iteration order of the dictionary `h`: each key once. */
  predicate Enumerates(h: Hashes, order: seq<string>) {
    && (forall i :: 0 <= i < |order| ==> order[i] in h)
    && (forall k :: k in h ==> k in order)
    && (forall i, j :: 0 <= i < j < |order| ==> order[i] != order[j])
  }

  /** The text `save_current_hashes` writes. */
  function Serialize(h: Hashes, order: seq<string>): string
    requires forall i :: 0 <= i < |order| ==> order[i] in h
    decreases |order|
  {
    if order == [] then ""
    else
      var k := order[|order| - 1];
      Serialize(h, order[..|order| - 1]) + RecordLine(k, h[k])
  }

  /** `save_current_hashes`: one line per entry, in dictionary order. */
  method SaveCurrentHashes(hashes: Hashes, order: seq<string>) returns (text: string)
    requires Enumerates(hashes, order)
    ensures text == Serialize(hashes, order)
  {
    text := "";
    for i := 0 to |order|
      invariant text == Serialize(hashes, order[..i])
    {
      var path := order[i];
      assert order[..i + 1][..i] == order[..i];
      text := text + path + "::" + hashes[path] + "\n";
    }
    assert order[..|order|] == order;
  }

  /** `f.readlines()` continued from inside a line that so far holds `cur`:
      each line keeps its '\n', and a last line without one is kept as it is. */
  function LinesFrom(s: string, cur: string): seq<string>
    decreases |s|
  {
    if s == [] then (if cur == [] then [] else [cur])
    else if s[0] == '\n' then [cur + "\n"] + LinesFrom(s[1..], [])
    else LinesFrom(s[1..], cur + [s[0]])
  }

  /** `f.readlines()`. */
  function Lines(s: string): seq<string> {
    LinesFrom(s, [])
  }

  function Concat(lines: seq<string>): string
    decreases |lines|
  {
    if lines == [] then "" else lines[0] + Concat(lines[1..])
  }

  lemma {:induction false} LinesFromConcat(s: string, cur: string)
    ensures Concat(LinesFrom(s, cur)) == cur + s
    decreases |s|
  {
    if s == [] {
      if cur != [] {
        assert [cur][1..] == [];
      }
    } else if s[0] == '\n' {
      var rest := LinesFrom(s[1..], []);
      LinesFromConcat(s[1..], []);
      assert ([cur + "\n"] + rest)[1..] == rest;
      assert cur + s == (cur + "\n") + s[1..];
    } else {
      LinesFromConcat(s[1..], cur + [s[0]]);
      assert (cur + [s[0]]) + s[1..] == cur + s;
    }
  }

  /** Reading lines loses nothing: the lines put together are the text. */
  lemma LinesConcat(s: string)
    ensures Concat(Lines(s)) == s
  {
    LinesFromConcat(s, []);
  }

  /** A text made of complete lines is read line by line, whatever follows it. */
  lemma {:induction false} LinesFromAppend(a: string, cur: string, t: string)
    requires a != [] && a[|a| - 1] == '\n'
    ensures LinesFrom(a + t, cur) == LinesFrom(a, cur) + LinesFrom(t, [])
    decreases |a|
  {
    assert (a + t)[0] == a[0] && (a + t)[1..] == a[1..] + t;
    if a[0] == '\n' {
      var first := [cur + "\n"];
      if |a| == 1 {
        assert a[1..] + t == t;
        assert LinesFrom(a, cur) == first + [];
      } else {
        LinesFromAppend(a[1..], [], t);
        calc {
          LinesFrom(a + t, cur);
          first + LinesFrom(a[1..] + t, []);
          first + (LinesFrom(a[1..], []) + LinesFrom(t, []));
          (first + LinesFrom(a[1..], [])) + LinesFrom(t, []);
          LinesFrom(a, cur) + LinesFrom(t, []);
        }
      }
    } else {
      LinesFromAppend(a[1..], cur + [a[0]], t);
    }
  }

  /** A line whose only newline is its last character is read as one line. */
  lemma {:induction false} LinesFromOneLine(x: string, cur: string)
    requires forall j :: 0 <= j < |x| ==> x[j] != '\n'
    ensures LinesFrom(x + "\n", cur) == [cur + x + "\n"]
    decreases |x|
  {
    var s := x + "\n";
    if x == [] {
      assert s == "\n" && s[1..] == [];
      assert cur + x == cur;
    } else {
      assert s[0] == x[0] && s[1..] == x[1..] + "\n";
      LinesFromOneLine(x[1..], cur + [x[0]]);
      assert (cur + [x[0]]) + x[1..] == cur + x;
    }
  }

  /** Appending a complete line to complete lines adds exactly that line. */
  lemma LinesSnoc(a: string, x: string)
    requires a == [] || a[|a| - 1] == '\n'
    requires forall j :: 0 <= j < |x| ==> x[j] != '\n'
    ensures Lines(a + (x + "\n")) == Lines(a) + [x + "\n"]
  {
    LinesFromOneLine(x, []);
    assert [] + x + "\n" == x + "\n";
    if a == [] {
      assert a + (x + "\n") == x + "\n";
    } else {
      LinesFromAppend(a, [], x + "\n");
    }
  }

  /** No "::" in `s`. */
  predicate NoSeparator(s: string) {
    forall i :: 0 <= i < |s| - 1 ==> !(s[i] == ':' && s[i + 1] == ':')
  }

  /** The index of the first "::" of `s`; `'::' in s` is `FindSeparator(s).Some?`. */
  function FindSeparator(s: string): (r: Option<nat>)
    ensures r.Some? ==> r.value + 2 <= |s|
    decreases |s|
  {
    if |s| < 2 then None
    else if s[0] == ':' && s[1] == ':' then Some(0)
    else match FindSeparator(s[1..])
      case None => None
      case Some(i) => Some(i + 1)
  }

  /** `FindSeparator` finds nothing exactly when there is no "::", and otherwise
      the first one. */
  lemma {:induction false} FindSeparatorSpec(s: string)
    ensures FindSeparator(s).None? <==> NoSeparator(s)
    ensures FindSeparator(s).Some? ==>
      var i := FindSeparator(s).value;
      s[i] == ':' && s[i + 1] == ':' && NoSeparator(s[..i + 1])
    decreases |s|
  {
    if |s| >= 2 && !(s[0] == ':' && s[1] == ':') {
      var t := s[1..];
      FindSeparatorSpec(t);
      assert forall k :: 0 <= k < |t| ==> t[k] == s[k + 1];
      if FindSeparator(t).Some? {
        var i := FindSeparator(t).value;
        var q := s[..i + 2];
        assert NoSeparator(q) by {
          forall k | 0 <= k < |q| - 1 ensures !(q[k] == ':' && q[k + 1] == ':') {
            if k > 0 {
              assert q[k] == t[..i + 1][k - 1] && q[k + 1] == t[..i + 1][k];
            }
          }
        }
      }
    }
  }

  lemma FindSeparatorAbsent(s: string)
    requires NoSeparator(s)
    ensures FindSeparator(s) == None
  {
    FindSeparatorSpec(s);
  }

  /** A "::" with none before it is the one `FindSeparator` finds. */
  lemma {:induction false} FindSeparatorAt(s: string, i: nat)
    requires i + 2 <= |s| && s[i] == ':' && s[i + 1] == ':' && NoSeparator(s[..i + 1])
    ensures FindSeparator(s) == Some(i)
    decreases i
  {
    if i > 0 {
      assert s[..i + 1][0] == s[0] && s[..i + 1][1] == s[1];
      var t := s[1..];
      assert t[..i] == s[..i + 1][1..];
      assert NoSeparator(t[..i]) by {
        forall k | 0 <= k < i - 1 ensures !(t[..i][k] == ':' && t[..i][k + 1] == ':') {
          assert t[..i][k] == s[..i + 1][k + 1] && t[..i][k + 1] == s[..i + 1][k + 2];
        }
      }
      FindSeparatorAt(t, i - 1);
    }
  }

  /** `s.split("::")`. */
  function SplitSeparator(s: string): (parts: seq<string>)
    ensures |parts| >= 1
    decreases |s|
  {
    match FindSeparator(s)
    case None => [s]
    case Some(i) => [s[..i]] + SplitSeparator(s[i + 2..])
  }

  /** `"::".join(parts)`. */
  function JoinSeparator(parts: seq<string>): string
    requires |parts| >= 1
    decreases |parts|
  {
    if |parts| == 1 then parts[0] else parts[0] + "::" + JoinSeparator(parts[1..])
  }

  /** Splitting loses nothing: joining the parts back gives the text. */
  lemma {:induction false} SplitJoin(s: string)
    ensures JoinSeparator(SplitSeparator(s)) == s
    decreases |s|
  {
    FindSeparatorSpec(s);
    if FindSeparator(s).Some? {
      var i := FindSeparator(s).value;
      var rest := SplitSeparator(s[i + 2..]);
      SplitJoin(s[i + 2..]);
      assert ([s[..i]] + rest)[1..] == rest;
      assert s[..i] + "::" + s[i + 2..] == s;
    }
  }

  /** One line as `dict(...)` takes it: `line.strip().split('::')` must have two
      parts, or a ValueError (None) ends the load. */
  function ParseLine(line: string): Option<(string, string)> {
    var parts := SplitSeparator(Strip(line));
    if |parts| == 2 then Some((parts[0], parts[1])) else None
  }

  /** `dict(line.strip().split('::') for line in lines if '::' in line)`: lines
      without "::" are passed over, a later line overrides an earlier one for
      the same path, and a line of the wrong shape is an error. */
  function ParseRecord(lines: seq<string>): Option<Hashes>
    decreases |lines|
  {
    if lines == [] then Some(map[])
    else match ParseRecord(lines[..|lines| - 1])
      case None => None
      case Some(acc) =>
        var line := lines[|lines| - 1];
        if FindSeparator(line).None? then Some(acc)
        else match ParseLine(line)
          case None => None
          case Some(kv) => Some(acc[kv.0 := kv.1])
  }

  /** `load_previous_hashes`: the record is None when the file does not exist. */
  function LoadPreviousHashes(record: Option<string>): (r: Option<Hashes>)
    ensures record.None? ==> r == Some(map[])
  {
    match record
    case None => Some(map[])
    case Some(text) => ParseRecord(Lines(text))
  }

  /** Lines that hold no "::" contribute nothing. */
  lemma {:induction false} ParseRecordIgnoresPlainLines(lines: seq<string>)
    requires forall k :: 0 <= k < |lines| ==> NoSeparator(lines[k])
    ensures ParseRecord(lines) == Some(map[])
    decreases |lines|
  {
    if lines != [] {
      ParseRecordIgnoresPlainLines(lines[..|lines| - 1]);
      FindSeparatorAbsent(lines[|lines| - 1]);
    }
  }

  /** A line without "::" anywhere in the record, among record lines or not,
      leaves the loaded map as it would be without that line. */
  lemma {:induction false} ParseRecordSkipsPlainLine(before: seq<string>, line: string, after: seq<string>)
    requires NoSeparator(line)
    ensures ParseRecord(before + [line] + after) == ParseRecord(before + after)
    decreases |after|
  {
    if after == [] {
      FindSeparatorAbsent(line);
      assert (before + [line] + after)[..|before| + 1 - 1] == before;
      assert before + after == before;
    } else {
      var init := after[..|after| - 1];
      ParseRecordSkipsPlainLine(before, line, init);
      assert (before + [line] + after)[..|before + [line] + after| - 1] == before + [line] + init;
      assert (before + after)[..|before + after| - 1] == before + init;
      assert (before + [line] + after)[|before + [line] + after| - 1] == after[|after| - 1];
      assert (before + after)[|before + after| - 1] == after[|after| - 1];
    }
  }

  /** A "::" preceded by text without "::" and not ending in ':' is the first
      one, so splitting there takes that text off as the first part. */
  lemma SplitAt(a: string, rest: string)
    requires NoSeparator(a) && (a == [] || a[|a| - 1] != ':')
    ensures FindSeparator(a + "::" + rest) == Some(|a|)
    ensures SplitSeparator(a + "::" + rest) == [a] + SplitSeparator(rest)
  {
    var s := a + "::" + rest;
    var q := a + ":";
    assert s[..|a| + 1] == q;
    assert NoSeparator(q) by {
      forall i | 0 <= i < |q| - 1 ensures !(q[i] == ':' && q[i + 1] == ':') {
        if i < |a| - 1 {
          assert q[i] == a[i] && q[i + 1] == a[i + 1];
        }
      }
    }
    FindSeparatorAt(s, |a|);
    assert s[..|a|] == a && s[|a| + 2..] == rest;
  }

  /** What a path and a hash must avoid to come back unchanged from the record:
      "::" and newlines, a path ending in ':' (it would end up on the hash's side
      of the separator), whitespace before the path and after the hash. */
  predicate Recordable(path: string, hash: string) {
    && NoSeparator(path) && NoSeparator(hash)
    && (path == [] || path[|path| - 1] != ':')
    && (forall j :: 0 <= j < |path| ==> path[j] != '\n')
    && (forall j :: 0 <= j < |hash| ==> hash[j] != '\n')
    && (path == [] || !IsSpace(path[0]))
    && (hash == [] || !IsSpace(hash[|hash| - 1]))
  }

  /** `strip` takes off exactly the newline of a line `path::hash` when the
      path does not start, and the hash does not end, with whitespace. */
  lemma StripLine(path: string, hash: string)
    requires path == [] || !IsSpace(path[0])
    requires hash == [] || !IsSpace(hash[|hash| - 1])
    ensures Strip(RecordLine(path, hash)) == path + "::" + hash
  {
    var s := path + "::" + hash;
    assert RecordLine(path, hash) == s + "\n";
    assert s[0] == (if path == [] then ':' else path[0]);
    assert s[|s| - 1] == (if hash == [] then ':' else hash[|hash| - 1]);
    StripDropsNewline(s);
  }

  /** A record line is recognised as holding "::" and reads back as its pair. */
  lemma ParseRecordLine(path: string, hash: string)
    requires Recordable(path, hash)
    ensures FindSeparator(RecordLine(path, hash)) == Some(|path|)
    ensures ParseLine(RecordLine(path, hash)) == Some((path, hash))
  {
    var line := RecordLine(path, hash);
    assert line == path + "::" + (hash + "\n");
    SplitAt(path, hash + "\n");
    StripLine(path, hash);
    SplitRecordBody(path, hash);
    assert SplitSeparator(Strip(line)) == [path, hash];
  }

  /** The stripped record line splits into exactly the path and the hash. */
  lemma SplitRecordBody(path: string, hash: string)
    requires Recordable(path, hash)
    ensures SplitSeparator(path + "::" + hash) == [path, hash]
  {
    SplitAt(path, hash);
    FindSeparatorAbsent(hash);
  }

  /** A record line is one complete line: its only newline is the last character. */
  lemma RecordLineShape(path: string, hash: string)
    requires forall j :: 0 <= j < |path| ==> path[j] != '\n'
    requires forall j :: 0 <= j < |hash| ==> hash[j] != '\n'
    ensures var x := path + "::" + hash;
      RecordLine(path, hash) == x + "\n" && forall j :: 0 <= j < |x| ==> x[j] != '\n'
  {
    var x := path + "::" + hash;
    forall j | 0 <= j < |x| ensures x[j] != '\n' {
      if j < |path| {
        assert x[j] == path[j];
      } else if j >= |path| + 2 {
        assert x[j] == hash[j - |path| - 2];
      }
    }
  }

  /** The saved text is empty or ends a line. */
  lemma SerializeEndsLine(h: Hashes, order: seq<string>)
    requires forall i :: 0 <= i < |order| ==> order[i] in h
    ensures var text := Serialize(h, order); text == [] || text[|text| - 1] == '\n'
  {
  }

  /** Reading one more record line after others updates the map with its pair. */
  lemma ParseRecordSnoc(lines: seq<string>, path: string, hash: string)
    requires Recordable(path, hash) && ParseRecord(lines).Some?
    ensures ParseRecord(lines + [RecordLine(path, hash)]) == Some(ParseRecord(lines).value[path := hash])
  {
    var ls := lines + [RecordLine(path, hash)];
    assert ls[..|ls| - 1] == lines;
    ParseRecordLine(path, hash);
  }

  lemma PrefixMapSnoc(h: Hashes, order: seq<string>, n: nat)
    requires forall i :: 0 <= i < |order| ==> order[i] in h
    requires 0 < n <= |order|
    ensures (map y | y in h && y in order[..n - 1] :: h[y])[order[n - 1] := h[order[n - 1]]]
            == map y | y in h && y in order[..n] :: h[y]
  {
    assert forall y :: y in order[..n] <==> y in order[..n - 1] || y == order[n - 1];
  }

  lemma {:induction false} RecordPrefixRoundTrip(h: Hashes, order: seq<string>, n: nat)
    requires forall i :: 0 <= i < |order| ==> order[i] in h
    requires forall k :: k in h ==> Recordable(k, h[k])
    requires n <= |order|
    ensures ParseRecord(Lines(Serialize(h, order[..n]))) == Some(map k | k in h && k in order[..n] :: h[k])
    decreases n
  {
    if n == 0 {
      assert order[..0] == [];
    } else {
      var prefix := order[..n - 1];
      assert order[..n][..n - 1] == prefix;
      RecordPrefixRoundTrip(h, order, n - 1);
      var k := order[n - 1];
      var text := Serialize(h, prefix);
      SerializeEndsLine(h, prefix);
      RecordLineShape(k, h[k]);
      LinesSnoc(text, k + "::" + h[k]);
      assert Serialize(h, order[..n]) == text + RecordLine(k, h[k]);
      assert Lines(Serialize(h, order[..n])) == Lines(text) + [RecordLine(k, h[k])];
      ParseRecordSnoc(Lines(text), k, h[k]);
      PrefixMapSnoc(h, order, n);
    }
  }

  /** Saving and then loading the record gives back the same map, for paths and
      hashes that respect `Recordable` (a hex digest always does). */
  lemma RecordRoundTrip(h: Hashes, order: seq<string>)
    requires Enumerates(h, order)
    requires forall k :: k in h ==> Recordable(k, h[k])
    ensures LoadPreviousHashes(Some(Serialize(h, order))) == Some(h)
  {
    RecordPrefixRoundTrip(h, order, |order|);
    assert order[..|order|] == order;
    assert (map k | k in h && k in order :: h[k]) == h;
  }

  /** A record that is one line without "::" loads as the empty map. */
  lemma PlainLineIgnored(x: string)
    requires forall j :: 0 <= j < |x| ==> x[j] != '\n'
    requires NoSeparator(x + "\n")
    ensures LoadPreviousHashes(Some(x + "\n")) == Some(map[])
  {
    LinesSnoc("", x);
    assert "" + (x + "\n") == x + "\n";
    assert Lines("") == [];
    var single: seq<string> := [x + "\n"];
    assert single[..0] == [];
    FindSeparatorAbsent(x + "\n");
    assert Lines(x + "\n") == single;
    assert ParseRecord(single[..0]) == Some(map[]);
  }

  /** A record line whose hash holds "::" is recognised but splits into three
      parts. */
  lemma ThreePartLine(a: string, b: string, c: string)
    requires Recordable(a, b) && Recordable(b, c)
    ensures FindSeparator(RecordLine(a, b + "::" + c)).Some?
    ensures ParseLine(RecordLine(a, b + "::" + c)) == None
  {
    var bc := b + "::" + c;
    assert RecordLine(a, bc) == a + "::" + (bc + "\n");
    SplitAt(a, bc + "\n");
    StripLine(a, bc);
    SplitAt(a, bc);
    SplitAt(b, c);
    FindSeparatorAbsent(c);
  }

  /** A record that is one such line cannot be loaded. */
  lemma ThreePartLineRejected(a: string, b: string, c: string)
    requires Recordable(a, b) && Recordable(b, c)
    ensures LoadPreviousHashes(Some(RecordLine(a, b + "::" + c))) == None
  {
    var bc := b + "::" + c;
    var line := RecordLine(a, bc);
    RecordLineShape(b, c);
    RecordLineShape(a, bc);
    LinesSnoc("", a + "::" + bc);
    assert "" + line == line;
    assert Lines(line) == [line];
    var single: seq<string> := [line];
    assert single[..0] == [];
    ThreePartLine(a, b, c);
  }

  /** A ':' put in front of a hash that does not start with one keeps the pair
      recordable. */
  lemma ColonHashRecordable(path: string, hash: string)
    requires Recordable(path, hash) && (hash == [] || hash[0] != ':')
    ensures Recordable(path, ":" + hash)
  {
    var h' := ":" + hash;
    assert NoSeparator(h') by {
      forall i | 0 <= i < |h'| - 1 ensures !(h'[i] == ':' && h'[i + 1] == ':') {
        if i == 0 {
          assert h'[1] == hash[0];
        } else {
          assert h'[i] == hash[i - 1] && h'[i + 1] == hash[i];
        }
      }
    }
  }

  /** Without the restriction on a final ':' the round trip fails: a path
      ending in ':' comes back without it, and its hash gains a ':' in front. */
  lemma ColonEndingPathChanges(path: string, hash: string)
    requires Recordable(path, hash) && path != [] && (hash == [] || hash[0] != ':')
    ensures LoadPreviousHashes(Some(Serialize(map[path + ":" := hash], [path + ":"])))
            == Some(map[path := ":" + hash])
  {
    var k := path + ":";
    var h' := ":" + hash;
    var line := RecordLine(path, h');
    var one: seq<string> := [k];
    assert one[..0] == [];
    assert Serialize(map[k := hash], one) == RecordLine(k, hash) == line;
    ColonHashRecordable(path, hash);
    RecordLineShape(path, h');
    LinesSnoc("", path + "::" + h');
    assert "" + line == line;
    assert Lines(line) == [line];
    var empty: seq<string> := [];
    ParseRecordSnoc(empty, path, h');
    assert empty + [line] == [line];
  }

  // =======================================================================
  // The polling loop of main
  // =======================================================================

  /** What one turn of `main`'s loop observes: whether the drive is mounted,
      whether the watched folder exists, the drive's hashes with their
      dictionary order, and the answer typed at the prompt. */
  datatype Poll = Poll(connected: bool, folderExists: bool, current: Hashes, order: seq<string>, answer: string)

  /** The loop's state: `already_connected` and the record file (None when absent). */
  datatype Watch = Watch(alreadyConnected: bool, record: Option<string>)

  /** What a turn reports. `Unreadable` is the ValueError of a malformed
      record, which ends `main`. */
  datatype Event =
    | Quiet
    | Removed
    | FolderMissing
    | Unreadable
    | NothingNew
    | Found(newFiles: Hashes, stats: map<Category, nat>, ran: bool)

  /** `input(...).strip().lower() == 'y'`. */
  predicate Confirmed(answer: string) {
    Lower(Strip(answer)) == "y"
  }

  predicate Scanned(e: Event) {
    e.FolderMissing? || e.Unreadable? || e.NothingNew? || e.Found?
  }

  /** One turn of the loop. */
  function WatchStep(w: Watch, p: Poll): (Watch, Event)
    requires Enumerates(p.current, p.order)
  {
    if p.connected && !w.alreadyConnected then
      if !p.folderExists then (w.(alreadyConnected := true), FolderMissing)
      else match LoadPreviousHashes(w.record)
        case None => (w, Unreadable)
        case Some(previous) =>
          var newFiles := NewFiles(p.current, previous);
          if newFiles == map[] then (w.(alreadyConnected := true), NothingNew)
          else if Confirmed(p.answer) then
            (Watch(true, Some(Serialize(p.current, p.order))), Found(newFiles, Stats(newFiles), true))
          else (w.(alreadyConnected := true), Found(newFiles, Stats(newFiles), false))
    else if !p.connected && w.alreadyConnected then (w.(alreadyConnected := false), Removed)
    else (w, Quiet)
  }

  /** The turns until the polls run out or a malformed record stops the loop. */
  function Trace(polls: seq<Poll>, w: Watch): (r: (seq<Event>, Watch))
    requires forall i :: 0 <= i < |polls| ==> Enumerates(polls[i].current, polls[i].order)
    ensures 1 <= |r.0| <= |polls| || (r.0 == [] && polls == [])
    decreases |polls|
  {
    if polls == [] then ([], w)
    else
      var (w', e) := WatchStep(w, polls[0]);
      if e.Unreadable? then ([e], w')
      else
        var (es, fin) := Trace(polls[1..], w');
        ([e] + es, fin)
  }

  /** After a turn that does not fail, the flag says whether the drive is mounted. */
  lemma FlagFollowsDrive(w: Watch, p: Poll)
    requires Enumerates(p.current, p.order)
    ensures !WatchStep(w, p).1.Unreadable? ==> WatchStep(w, p).0.alreadyConnected == p.connected
  {
  }

  /** A scan happens exactly on a turn that finds the drive newly mounted. */
  lemma ScanExactlyOnInsertion(w: Watch, p: Poll)
    requires Enumerates(p.current, p.order)
    ensures Scanned(WatchStep(w, p).1) <==> p.connected && !w.alreadyConnected
    ensures WatchStep(w, p).1.Removed? <==> !p.connected && w.alreadyConnected
  {
  }

  /** The record is written only after new files were found and the user
      answered 'y', and then it holds the drive's current hashes. */
  lemma SaveOnlyAfterConfirmation(w: Watch, p: Poll)
    requires Enumerates(p.current, p.order)
    ensures var (w', e) := WatchStep(w, p);
      && (e.Found? && e.ran <==> e.Found? && Confirmed(p.answer))
      && w'.record == (if e.Found? && e.ran then Some(Serialize(p.current, p.order)) else w.record)
  {
    if p.connected && !w.alreadyConnected && p.folderExists && LoadPreviousHashes(w.record).Some? {
      var newFiles := NewFiles(p.current, LoadPreviousHashes(w.record).value);
      if newFiles != map[] {
        if Confirmed(p.answer) {
          assert WatchStep(w, p) == (Watch(true, Some(Serialize(p.current, p.order))), Found(newFiles, Stats(newFiles), true));
        } else {
          assert WatchStep(w, p) == (w.(alreadyConnected := true), Found(newFiles, Stats(newFiles), false));
        }
      } else {
        assert WatchStep(w, p) == (w.(alreadyConnected := true), NothingNew);
      }
    } else {
      assert !WatchStep(w, p).1.Found? && WatchStep(w, p).0.record == w.record;
    }
  }

  /** A report lists exactly the diff against the record, never an empty one,
      with counts that add up to its size. */
  lemma FoundReportsTheDiff(w: Watch, p: Poll)
    requires Enumerates(p.current, p.order)
    ensures var e := WatchStep(w, p).1;
      e.Found? ==>
        && LoadPreviousHashes(w.record).Some?
        && e.newFiles == NewFiles(p.current, LoadPreviousHashes(w.record).value) != map[]
        && e.stats[Images] + e.stats[Raw] + e.stats[Videos] + e.stats[Other] == |e.newFiles|
  {
    if p.connected && !w.alreadyConnected && p.folderExists && LoadPreviousHashes(w.record).Some? {
      var newFiles := NewFiles(p.current, LoadPreviousHashes(w.record).value);
      if newFiles != map[] {
        assert WatchStep(w, p).1 == Found(newFiles, Stats(newFiles), Confirmed(p.answer));
        StatsTotal(newFiles);
      }
    }
  }

  /** Across a run, the i-th turn scans exactly when the drive is mounted and
      was not mounted at the turn before (or at the start). */
  lemma {:induction false} TraceScansOnRisingEdges(polls: seq<Poll>, w: Watch, i: nat)
    requires forall k :: 0 <= k < |polls| ==> Enumerates(polls[k].current, polls[k].order)
    requires i < |Trace(polls, w).0|
    ensures Scanned(Trace(polls, w).0[i]) <==>
      polls[i].connected && (if i == 0 then !w.alreadyConnected else !polls[i - 1].connected)
    decreases i
  {
    var (w', e) := WatchStep(w, polls[0]);
    ScanExactlyOnInsertion(w, polls[0]);
    if i > 0 {
      assert !e.Unreadable?;
      FlagFollowsDrive(w, polls[0]);
      TraceScansOnRisingEdges(polls[1..], w', i - 1);
      if i > 1 {
        assert polls[1..][i - 2] == polls[i - 1];
      }
    }
  }

  /** After a confirmed run saved the record, plugging the same drive in again
      reports nothing new. */
  lemma NothingNewAfterConfirmedRun(w: Watch, p: Poll, later: Watch, q: Poll)
    requires Enumerates(p.current, p.order) && Enumerates(q.current, q.order)
    requires forall k :: k in p.current ==> Recordable(k, p.current[k])
    requires WatchStep(w, p).1.Found? && WatchStep(w, p).1.ran
    requires later.record == WatchStep(w, p).0.record && !later.alreadyConnected
    requires q.connected && q.folderExists && q.current == p.current
    ensures WatchStep(later, q) == (Watch(true, later.record), NothingNew)
  {
    SaveOnlyAfterConfirmation(w, p);
    assert later.record == Some(Serialize(p.current, p.order));
    RecordRoundTrip(p.current, p.order);
    assert LoadPreviousHashes(later.record) == Some(q.current);
    NewFilesExtremes(p.current);
    assert NewFiles(q.current, q.current) == map[];
  }

  /** One turn of `main`'s loop, with the effects of the pipeline run and the
      prints left out. It is the method form of `WatchStep`: the properties of a
      turn and of a run of turns are proved about `WatchStep`. */
  method HandlePoll(alreadyConnected: bool, record: Option<string>, p: Poll)
    returns (alreadyConnected': bool, record': Option<string>, event: Event)
    requires Enumerates(p.current, p.order)
    ensures (Watch(alreadyConnected', record'), event) == WatchStep(Watch(alreadyConnected, record), p)
  {
    alreadyConnected', record', event := alreadyConnected, record, Quiet;
    if p.connected && !alreadyConnected {
      if p.folderExists {
        var currentHashes := p.current;
        var previousHashes := LoadPreviousHashes(record);
        if previousHashes.None? {
          return alreadyConnected, record, Unreadable;
        }
        var newFiles, stats := ClassifyNewFiles(currentHashes, previousHashes.value);
        if newFiles != map[] {
          var confirm := Lower(Strip(p.answer));
          if confirm == "y" {
            var text := SaveCurrentHashes(currentHashes, p.order);
            record' := Some(text);
            event := Found(newFiles, stats, true);
          } else {
            event := Found(newFiles, stats, false);
          }
        } else {
          event := NothingNew;
        }
      } else {
        event := FolderMissing;
      }
      alreadyConnected' := true;
    } else if !p.connected && alreadyConnected {
      alreadyConnected' := false;
      event := Removed;
    }
  }

  /** `main` over a finite run of polls, starting disconnected. */
  method RunWatcher(polls: seq<Poll>, record0: Option<string>) returns (events: seq<Event>, record: Option<string>)
    requires forall i :: 0 <= i < |polls| ==> Enumerates(polls[i].current, polls[i].order)
    ensures events == Trace(polls, Watch(false, record0)).0
    ensures record == Trace(polls, Watch(false, record0)).1.record
  {
    var alreadyConnected := false;
    record := record0;
    events := [];
    var i := 0;
    assert polls[i..] == polls;
    while i < |polls|
      invariant 0 <= i <= |polls|
      invariant Trace(polls, Watch(false, record0)).0 == events + Trace(polls[i..], Watch(alreadyConnected, record)).0
      invariant Trace(polls, Watch(false, record0)).1 == Trace(polls[i..], Watch(alreadyConnected, record)).1
    {
      ghost var w := Watch(alreadyConnected, record);
      assert polls[i..][0] == polls[i] && polls[i..][1..] == polls[i + 1..];
      var event;
      alreadyConnected, record, event := HandlePoll(alreadyConnected, record, polls[i]);
      if event.Unreadable? {
        events := events + [event];
        return;
      }
      events := events + [event];
      i := i + 1;
    }
  }
}
