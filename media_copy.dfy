/**
 * Replication of the organised library into a second folder
 * (src/copy_media_for_cloud.py).
 *
 * The source tree and the destination tree are maps from the paths of the
 * files that exist to their contents. Each of the two strategies decides, in
 * order, which source file goes to which destination path: a *plan*. Running
 * a plan applies to each planned copy the same step the script applies: skip
 * and count a destination that already exists, otherwise copy the file and
 * count it, unless the copy raises. Configuration (the two folders), the walk
 * of the source folder and the files whose copy fails are inputs.
 */
module MediaCopy {
  import opened Wrappers
  import opened Text
  import opened Paths

  type Bytes = seq<bv8>

  /** The files that exist, with their contents. */
  type Tree = map<Path, Bytes>

  // =======================================================================
  // Running a plan of copies
  // =======================================================================

  datatype Copy = Copy(source: Path, target: Path)

  /** The destination tree and the two counters of a copy pass. */
  datatype Tally = Tally(tree: Tree, copied: nat, skipped: nat)

  /** One planned copy: `os.path.exists(dest_path)` skips and counts; otherwise
      `shutil.copy2` adds the file and counts it, or raises (a missing source or
      a file in `failing`) and changes nothing. */
  function Step(t: Tally, c: Copy, src: Tree, failing: set<Path>): Tally {
    if c.target in t.tree then t.(skipped := t.skipped + 1)
    else if c.source in src && c.source !in failing then
      Tally(t.tree[c.target := src[c.source]], t.copied + 1, t.skipped)
    else t
  }

  /** The existence check, copy and counting of one file, as both strategies
      write them. It is the method form of `Step`: the properties of a pass are
      proved about `Step` and `Run`. */
  method CopyOne(t: Tally, source: Path, target: Path, src: Tree, failing: set<Path>) returns (t': Tally)
    ensures t' == Step(t, Copy(source, target), src, failing)
  {
    if target in t.tree {
      t' := t.(skipped := t.skipped + 1);
    } else if source in src && source !in failing {
      t' := Tally(t.tree[target := src[source]], t.copied + 1, t.skipped);
    } else {
      t' := t;
    }
  }

  function Run(plan: seq<Copy>, src: Tree, failing: set<Path>, t: Tally): Tally
    decreases |plan|
  {
    if plan == [] then t else Run(plan[1..], src, failing, Step(t, plan[0], src, failing))
  }

  lemma {:induction false} RunSnoc(plan: seq<Copy>, c: Copy, src: Tree, failing: set<Path>, t: Tally)
    ensures Run(plan + [c], src, failing, t) == Step(Run(plan, src, failing, t), c, src, failing)
    decreases |plan|
  {
    if plan == [] {
      assert plan + [c] == [c];
    } else {
      assert (plan + [c])[1..] == plan[1..] + [c];
      RunSnoc(plan[1..], c, src, failing, Step(t, plan[0], src, failing));
    }
  }

  /** Nothing that exists at the destination is ever overwritten. */
  lemma {:induction false} RunKeepsExisting(plan: seq<Copy>, src: Tree, failing: set<Path>, t: Tally)
    ensures var r := Run(plan, src, failing, t);
      forall p :: p in t.tree ==> p in r.tree && r.tree[p] == t.tree[p]
    decreases |plan|
  {
    if plan != [] {
      RunKeepsExisting(plan[1..], src, failing, Step(t, plan[0], src, failing));
    }
  }

  /** Every file that appears is a planned target holding its planned source's content. */
  lemma {:induction false} RunAddsOnlyPlanned(plan: seq<Copy>, src: Tree, failing: set<Path>, t: Tally)
    ensures var r := Run(plan, src, failing, t);
      forall p :: p in r.tree && p !in t.tree ==>
        exists c :: c in plan && c.target == p && c.source in src && r.tree[p] == src[c.source]
    decreases |plan|
  {
    if plan != [] {
      var t' := Step(t, plan[0], src, failing);
      var r := Run(plan, src, failing, t);
      RunAddsOnlyPlanned(plan[1..], src, failing, t');
      RunKeepsExisting(plan[1..], src, failing, t');
      forall p | p in r.tree && p !in t.tree
        ensures exists c :: c in plan && c.target == p && c.source in src && r.tree[p] == src[c.source]
      {
        if p in t'.tree {
          assert plan[0] in plan && plan[0].target == p;
        } else {
          var c :| c in plan[1..] && c.target == p && c.source in src && r.tree[p] == src[c.source];
          assert c in plan;
        }
      }
    }
  }

  /** `copied_count` is exactly the number of files added, and every planned
      copy increments at most one of the two counters. */
  lemma {:induction false} RunCounts(plan: seq<Copy>, src: Tree, failing: set<Path>, t: Tally)
    ensures var r := Run(plan, src, failing, t);
      && t.tree.Keys <= r.tree.Keys
      && r.copied - t.copied == |r.tree.Keys| - |t.tree.Keys|
      && r.copied + r.skipped <= t.copied + t.skipped + |plan|
    decreases |plan|
  {
    if plan != [] {
      var t' := Step(t, plan[0], src, failing);
      RunCounts(plan[1..], src, failing, t');
      if plan[0].target !in t.tree && plan[0].source in src && plan[0].source !in failing {
        assert t'.tree.Keys == t.tree.Keys + {plan[0].target};
      }
    }
  }

  /** Every planned copy is done: its target exists, or its copy cannot succeed. */
  ghost predicate Settled(plan: seq<Copy>, src: Tree, failing: set<Path>, tree: Tree) {
    forall c :: c in plan ==> c.target in tree || c.source !in src || c.source in failing
  }

  lemma {:induction false} RunSettles(plan: seq<Copy>, src: Tree, failing: set<Path>, t: Tally)
    ensures Settled(plan, src, failing, Run(plan, src, failing, t).tree)
    decreases |plan|
  {
    if plan != [] {
      var t' := Step(t, plan[0], src, failing);
      RunSettles(plan[1..], src, failing, t');
      RunKeepsExisting(plan[1..], src, failing, t');
    }
  }

  lemma {:induction false} RunSettledIsNoop(plan: seq<Copy>, src: Tree, failing: set<Path>, t: Tally)
    requires Settled(plan, src, failing, t.tree)
    ensures var r := Run(plan, src, failing, t);
      r.tree == t.tree && r.copied == t.copied
    decreases |plan|
  {
    if plan != [] {
      RunSettledIsNoop(plan[1..], src, failing, Step(t, plan[0], src, failing));
    }
  }

  /** A second pass over an unchanged source copies nothing and leaves the
      destination as the first pass left it. */
  lemma RunIdempotent(plan: seq<Copy>, src: Tree, failing: set<Path>, tree: Tree)
    ensures var first := Run(plan, src, failing, Tally(tree, 0, 0));
      var second := Run(plan, src, failing, Tally(first.tree, 0, 0));
      second.tree == first.tree && second.copied == 0
  {
    var first := Run(plan, src, failing, Tally(tree, 0, 0));
    RunSettles(plan, src, failing, Tally(tree, 0, 0));
    RunSettledIsNoop(plan, src, failing, Tally(first.tree, 0, 0));
  }

  /** The targets of the planned copies whose source exists but whose copy
      raised: the only files a later pass can still add. */
  function RetryTargets(plan: seq<Copy>, src: Tree, failing: set<Path>): set<Path> {
    set c | c in plan && c.source in src && c.source in failing :: c.target
  }

  /** A second pass can add only targets whose copy raised in the first pass. */
  lemma SecondPassAddsOnlyRetries(plan: seq<Copy>, src: Tree, failing: set<Path>, failingAgain: set<Path>,
                                  first: Tree, tree: Tree)
    requires first == Run(plan, src, failing, Tally(tree, 0, 0)).tree
    ensures var second := Run(plan, src, failingAgain, Tally(first, 0, 0));
      second.tree.Keys - first.Keys <= RetryTargets(plan, src, failing)
  {
    var t := Tally(first, 0, 0);
    var second := Run(plan, src, failingAgain, t);
    RunSettles(plan, src, failing, Tally(tree, 0, 0));
    RunAddsOnlyPlanned(plan, src, failingAgain, t);
    forall p | p in second.tree.Keys - first.Keys ensures p in RetryTargets(plan, src, failing) {
      var c :| c in plan && c.target == p && c.source in src && second.tree[p] == src[c.source];
    }
  }

  /** The files a pass adds are counted once each. */
  lemma AddedCount(first: Tree, second: Tally, retry: set<Path>)
    requires first.Keys <= second.tree.Keys && second.tree.Keys - first.Keys <= retry
    requires second.copied == |second.tree.Keys| - |first.Keys|
    ensures second.copied <= |retry|
  {
    var added := second.tree.Keys - first.Keys;
    assert second.tree.Keys == first.Keys + added;
    assert retry == added + (retry - added);
  }

  /** A second pass over an unchanged source, whatever copies fail in it, keeps
      every file of the first, adds only targets whose copy raised in the
      first pass, and copies at most that many files; when every copy that raised
      the first time raises again, it changes nothing. */
  lemma SecondPass(plan: seq<Copy>, src: Tree, failing: set<Path>, failingAgain: set<Path>, tree: Tree)
    ensures var first := Run(plan, src, failing, Tally(tree, 0, 0));
      var second := Run(plan, src, failingAgain, Tally(first.tree, 0, 0));
      && (forall p :: p in first.tree ==> p in second.tree && second.tree[p] == first.tree[p])
      && (forall p :: p in second.tree && p !in first.tree ==> p in RetryTargets(plan, src, failing))
      && second.copied <= |RetryTargets(plan, src, failing)|
      && (failing <= failingAgain ==> second.tree == first.tree && second.copied == 0)
  {
    var first := Run(plan, src, failing, Tally(tree, 0, 0));
    var t := Tally(first.tree, 0, 0);
    var second := Run(plan, src, failingAgain, t);
    RunKeepsExisting(plan, src, failingAgain, t);
    RunCounts(plan, src, failingAgain, t);
    SecondPassAddsOnlyRetries(plan, src, failing, failingAgain, first.tree, tree);
    AddedCount(first.tree, second, RetryTargets(plan, src, failing));
    if failing <= failingAgain {
      RunSettles(plan, src, failing, Tally(tree, 0, 0));
      assert Settled(plan, src, failingAgain, first.tree);
      RunSettledIsNoop(plan, src, failingAgain, t);
    }
  }

  // =======================================================================
  // Strategy 1: the metadata ledger
  // =======================================================================

  /** One element of `metadata["files"]`; a missing "file_type" is None. */
  datatype FileInfo = FileInfo(fileType: Option<string>, filepath: Path)

  /** The decoded `metadata.json` object: its "files" list, if the key is
      present, and how many other keys it has. */
  datatype Document = Document(files: Option<seq<FileInfo>>, otherKeys: nat)

  /** What reading `metadata.json` gives. */
  datatype MetadataFile = Absent | Corrupt | Parsed(doc: Document)

  /** `load_metadata`: the decoded document, or None when the file is missing or
      not valid JSON. */
  function LoadMetadata(f: MetadataFile): (r: Option<Document>)
    ensures r.Some? <==> f.Parsed?
    ensures f.Parsed? ==> r == Some(f.doc)
  {
    match f
    case Parsed(doc) => Some(doc)
    case _ => None
  }

  /** Python truthiness of the decoded object: it has at least one key. */
  predicate Truthy(doc: Document) {
    doc.files.Some? || doc.otherKeys > 0
  }

  /** `file_info.get("file_type") in ["IMAGES", "VIDEOS"]`. */
  predicate Replicated(e: FileInfo) {
    e.fileType == Some("IMAGES") || e.fileType == Some("VIDEOS")
  }

  /** `DESTINATION_FOLDER / relpath(dirname(source), SOURCE_FOLDER) / basename(source)`. */
  function MirrorPath(source: Path, srcRoot: Path, destRoot: Path): Path {
    destRoot + RelPath(Dirname(source), srcRoot) + [Basename(source)]
  }

  /** A file inside the source folder keeps its place relative to the folder. */
  lemma MirrorPathBelow(source: Path, srcRoot: Path, destRoot: Path)
    requires srcRoot < source
    ensures MirrorPath(source, srcRoot, destRoot) == destRoot + source[|srcRoot|..]
  {
    RelPathBelow(Dirname(source), srcRoot);
    assert Dirname(source)[|srcRoot|..] + [Basename(source)] == source[|srcRoot|..];
  }

  /** Two different files inside the source folder never share a destination. */
  lemma MirrorPathInjective(a: Path, b: Path, srcRoot: Path, destRoot: Path)
    requires srcRoot < a && srcRoot < b
    requires MirrorPath(a, srcRoot, destRoot) == MirrorPath(b, srcRoot, destRoot)
    ensures a == b
  {
    MirrorPathBelow(a, srcRoot, destRoot);
    MirrorPathBelow(b, srcRoot, destRoot);
    var ma := destRoot + a[|srcRoot|..];
    assert ma[|destRoot|..] == a[|srcRoot|..];
    assert a == srcRoot + a[|srcRoot|..];
    assert b == srcRoot + b[|srcRoot|..];
  }

  /** The copy one ledger entry asks for, if any. */
  function EntryPlan(e: FileInfo, src: Tree, srcRoot: Path, destRoot: Path): seq<Copy> {
    if Replicated(e) && e.filepath in src then [Copy(e.filepath, MirrorPath(e.filepath, srcRoot, destRoot))]
    else []
  }

  /** The copies `copy_from_metadata` attempts: the IMAGES and VIDEOS entries
      whose source exists, in ledger order. */
  function MetadataPlan(entries: seq<FileInfo>, src: Tree, srcRoot: Path, destRoot: Path): (plan: seq<Copy>)
    ensures |plan| <= |entries|
    ensures forall c :: c in plan ==> c.source in src && c.target == MirrorPath(c.source, srcRoot, destRoot)
    decreases |entries|
  {
    if entries == [] then []
    else MetadataPlan(entries[..|entries| - 1], src, srcRoot, destRoot)
         + EntryPlan(entries[|entries| - 1], src, srcRoot, destRoot)
  }

  lemma MetadataPlanSnoc(entries: seq<FileInfo>, i: nat, src: Tree, srcRoot: Path, destRoot: Path)
    requires i < |entries|
    ensures MetadataPlan(entries[..i + 1], src, srcRoot, destRoot)
            == MetadataPlan(entries[..i], src, srcRoot, destRoot) + EntryPlan(entries[i], src, srcRoot, destRoot)
  {
    assert entries[..i + 1][..i] == entries[..i];
  }

  /** Only IMAGES and VIDEOS entries are planned: RAW entries, entries of another
      type or none, and entries whose file is gone are not copied. */
  lemma {:induction false} MetadataPlanFromLedger(entries: seq<FileInfo>, src: Tree, srcRoot: Path, destRoot: Path)
    ensures forall c :: c in MetadataPlan(entries, src, srcRoot, destRoot) ==>
      exists e :: e in entries && Replicated(e) && e.filepath == c.source
    decreases |entries|
  {
    if entries != [] {
      var init := entries[..|entries| - 1];
      var last := entries[|entries| - 1];
      MetadataPlanFromLedger(init, src, srcRoot, destRoot);
      forall c | c in MetadataPlan(entries, src, srcRoot, destRoot)
        ensures exists e :: e in entries && Replicated(e) && e.filepath == c.source
      {
        if c in MetadataPlan(init, src, srcRoot, destRoot) {
          var e :| e in init && Replicated(e) && e.filepath == c.source;
          assert e in entries;
        } else {
          assert c in EntryPlan(last, src, srcRoot, destRoot);
          assert last in entries;
        }
      }
    }
  }

  /** The ledger plan copies exactly the IMAGES and VIDEOS entries whose file
      exists, each to its mirrored place. */
  lemma {:induction false} MetadataPlanExact(entries: seq<FileInfo>, src: Tree, srcRoot: Path, destRoot: Path, c: Copy)
    ensures c in MetadataPlan(entries, src, srcRoot, destRoot) <==>
      exists e :: e in entries && Replicated(e) && e.filepath in src
                  && c == Copy(e.filepath, MirrorPath(e.filepath, srcRoot, destRoot))
    decreases |entries|
  {
    if entries != [] {
      var init := entries[..|entries| - 1];
      MetadataPlanExact(init, src, srcRoot, destRoot, c);
      assert entries == init + [entries[|entries| - 1]];
    }
  }

  /** After the ledger pass, every IMAGES or VIDEOS file that exists and whose
      copy does not raise is at its mirrored place. */
  lemma LedgerFilesArrive(entries: seq<FileInfo>, src: Tree, srcRoot: Path, destRoot: Path, failing: set<Path>,
                          t: Tally, e: FileInfo)
    requires e in entries && Replicated(e) && e.filepath in src && e.filepath !in failing
    ensures MirrorPath(e.filepath, srcRoot, destRoot) in Run(MetadataPlan(entries, src, srcRoot, destRoot), src, failing, t).tree
  {
    var c := Copy(e.filepath, MirrorPath(e.filepath, srcRoot, destRoot));
    MetadataPlanExact(entries, src, srcRoot, destRoot, c);
    RunSettles(MetadataPlan(entries, src, srcRoot, destRoot), src, failing, t);
  }

  /** One turn of `copy_from_metadata`'s loop: an IMAGES or VIDEOS entry whose
      source exists is copied to its mirrored place, unless that is taken. */
  method CopyEntry(info: FileInfo, srcRoot: Path, destRoot: Path, src: Tree, failing: set<Path>, t: Tally)
    returns (t': Tally)
    ensures t' == Run(EntryPlan(info, src, srcRoot, destRoot), src, failing, t)
  {
    t' := t;
    if Replicated(info) {
      var source := info.filepath;
      if source in src {
        var target := MirrorPath(source, srcRoot, destRoot);
        t' := CopyOne(t, source, target, src, failing);
      }
    }
  }

  /** `copy_from_metadata`: False, with nothing done, exactly when the document
      has no "files" key (an empty document has none); otherwise the ledger's
      plan is run and True returned. */
  method CopyFromMetadata(doc: Document, srcRoot: Path, destRoot: Path, src: Tree, failing: set<Path>, tree: Tree)
    returns (ok: bool, tree': Tree, copied: nat, skipped: nat)
    ensures ok <==> doc.files.Some?
    ensures !ok ==> tree' == tree && copied == 0 && skipped == 0
    ensures ok ==> Tally(tree', copied, skipped)
                   == Run(MetadataPlan(doc.files.value, src, srcRoot, destRoot), src, failing, Tally(tree, 0, 0))
  {
    if !Truthy(doc) || doc.files.None? {
      return false, tree, 0, 0;
    }
    var entries := doc.files.value;
    var t := Tally(tree, 0, 0);
    var i := 0;
    while i < |entries|
      invariant 0 <= i <= |entries|
      invariant t == Run(MetadataPlan(entries[..i], src, srcRoot, destRoot), src, failing, Tally(tree, 0, 0))
    {
      var info := entries[i];
      MetadataPlanSnoc(entries, i, src, srcRoot, destRoot);
      ghost var done := MetadataPlan(entries[..i], src, srcRoot, destRoot);
      RunAppend(done, EntryPlan(info, src, srcRoot, destRoot), src, failing, Tally(tree, 0, 0));
      t := CopyEntry(info, srcRoot, destRoot, src, failing, t);
      assert t == Run(MetadataPlan(entries[..i + 1], src, srcRoot, destRoot), src, failing, Tally(tree, 0, 0));
      i := i + 1;
    }
    assert entries[..i] == entries;
    ok, tree', copied, skipped := true, t.tree, t.copied, t.skipped;
  }

  // =======================================================================
  // Strategy 2: the directory walk
  // =======================================================================

  const MediaExtensions: seq<string> := [".jpg", ".jpeg", ".png", ".tiff", ".bmp", ".mp4", ".mov"]

  /** The names the walk copies: a media extension in any letter case, and
      never the ledger itself. */
  predicate Wanted(name: string) {
    name != "metadata.json" && EndsWithAny(Lower(name), MediaExtensions)
  }

  /** A file is taken exactly when it is not the ledger and its lower-cased
      name ends with one of the media extensions. */
  lemma WantedSpec(name: string)
    ensures Wanted(name) <==>
      name != "metadata.json" && exists ext :: ext in MediaExtensions && EndsWith(Lower(name), ext)
  {
    EndsWithAnyExists(Lower(name), MediaExtensions);
  }

  /** A directory whose own name contains "raw" in any letter case is skipped;
      only its own files are, its subdirectories are walked as usual. */
  predicate RawDirectory(root: Path) {
    Contains(Lower(Basename(root)), "raw")
  }

  /** A directory is raw when "raw", in any letter case, appears anywhere in its name. */
  lemma RawInName(root: Path, i: nat)
    requires i + 3 <= |Basename(root)| && Lower(Basename(root)[i..i + 3]) == "raw"
    ensures RawDirectory(root)
  {
    var name := Basename(root);
    var n := Lower(name);
    assert n[i..i + 3] == "raw" by {
      forall k | 0 <= k < 3 ensures n[i + k] == "raw"[k] {
        assert name[i..i + 3][k] == name[i + k];
      }
    }
    ContainsAt(n, "raw", i);
  }

  /** A directory whose name has no 'r' or 'R' is never raw. */
  lemma NoRawWithoutR(parent: Path, name: string)
    requires forall j :: 0 <= j < |name| ==> LowerChar(name[j]) != 'r'
    ensures !RawDirectory(parent + [name])
  {
    ContainsNeedsFirst(Lower(name), "raw");
  }

  /** "RAW" and "Canon_Raw_Files" are raw directories. */
  lemma RawDirectoryExamples()
    ensures RawDirectory(["D", "2024", "RAW"])
    ensures RawDirectory(["D", "Canon_Raw_Files"])
  {
    assert Lower("RAW") == "raw";
    assert "RAW"[0..3] == "RAW";
    RawInName(["D", "2024", "RAW"], 0);
    assert Lower("Raw") == "raw";
    assert "Canon_Raw_Files"[6..9] == "Raw";
    RawInName(["D", "Canon_Raw_Files"], 6);
  }

  /** An "edits" folder inside a raw directory is not itself raw. */
  lemma EditsBelowRawNotRaw()
    ensures !RawDirectory(["D", "2024", "RAW", "edits"])
  {
    var name := "edits";
    assert forall j :: 0 <= j < |name| ==> name[j] in "edits";
    NoRawWithoutR(["D", "2024", "RAW"], name);
    assert ["D", "2024", "RAW"] + [name] == ["D", "2024", "RAW", "edits"];
  }

  function TargetIn(root: Path, name: string, srcRoot: Path, destRoot: Path): Path {
    destRoot + RelPath(root, srcRoot) + [name]
  }

  /** The copy one listed file asks for, if any. */
  function NamePlan(root: Path, name: string, srcRoot: Path, destRoot: Path): seq<Copy> {
    if Wanted(name) then [Copy(root + [name], TargetIn(root, name, srcRoot, destRoot))] else []
  }

  /** The copies planned for the files of one directory, in listing order. */
  function FilesPlan(root: Path, files: seq<string>, srcRoot: Path, destRoot: Path): (plan: seq<Copy>)
    ensures |plan| <= |files|
    ensures forall c :: c in plan ==>
      && c.source == root + [Basename(c.source)]
      && Wanted(Basename(c.source))
      && c.target == TargetIn(root, Basename(c.source), srcRoot, destRoot)
    decreases |files|
  {
    if files == [] then []
    else FilesPlan(root, files[..|files| - 1], srcRoot, destRoot) + NamePlan(root, files[|files| - 1], srcRoot, destRoot)
  }

  lemma FilesPlanSnoc(root: Path, files: seq<string>, j: nat, srcRoot: Path, destRoot: Path)
    requires j < |files|
    ensures FilesPlan(root, files[..j + 1], srcRoot, destRoot)
            == FilesPlan(root, files[..j], srcRoot, destRoot) + NamePlan(root, files[j], srcRoot, destRoot)
  {
    assert files[..j + 1][..j] == files[..j];
  }

  /** The plan of one directory copies exactly its wanted files, each to the
      mirrored directory. */
  lemma {:induction false} FilesPlanExact(root: Path, files: seq<string>, srcRoot: Path, destRoot: Path, c: Copy)
    ensures c in FilesPlan(root, files, srcRoot, destRoot) <==>
      exists f :: f in files && Wanted(f) && c == Copy(root + [f], TargetIn(root, f, srcRoot, destRoot))
    decreases |files|
  {
    if files != [] {
      var init := files[..|files| - 1];
      FilesPlanExact(root, init, srcRoot, destRoot, c);
      assert files == init + [files[|files| - 1]];
    }
  }

  function DirectoryPlan(e: WalkEntry, srcRoot: Path, destRoot: Path): seq<Copy> {
    if RawDirectory(e.root) then [] else FilesPlan(e.root, e.files, srcRoot, destRoot)
  }

  /** The copies `copy_by_directory_structure` attempts, in walk order. */
  function WalkPlan(walk: seq<WalkEntry>, srcRoot: Path, destRoot: Path): (plan: seq<Copy>)
    ensures forall c :: c in plan ==>
      && c.source != []
      && !RawDirectory(Dirname(c.source))
      && Wanted(Basename(c.source))
      && c.target == TargetIn(Dirname(c.source), Basename(c.source), srcRoot, destRoot)
    decreases |walk|
  {
    if walk == [] then []
    else
      var init := WalkPlan(walk[..|walk| - 1], srcRoot, destRoot);
      var last := walk[|walk| - 1];
      var here := DirectoryPlan(last, srcRoot, destRoot);
      assert forall c :: c in here ==> Dirname(c.source) == last.root by {
        forall c | c in here ensures Dirname(c.source) == last.root {
          assert c.source == last.root + [Basename(c.source)];
        }
      }
      init + here
  }

  lemma WalkPlanSnoc(walk: seq<WalkEntry>, i: nat, srcRoot: Path, destRoot: Path)
    requires i < |walk|
    ensures WalkPlan(walk[..i + 1], srcRoot, destRoot)
            == WalkPlan(walk[..i], srcRoot, destRoot) + DirectoryPlan(walk[i], srcRoot, destRoot)
  {
    assert walk[..i + 1][..i] == walk[..i];
  }

  /** Every copy of the walk plan comes from the plan of one walked directory. */
  lemma {:induction false} WalkPlanSound(walk: seq<WalkEntry>, srcRoot: Path, destRoot: Path, c: Copy)
    requires c in WalkPlan(walk, srcRoot, destRoot)
    ensures exists e :: e in walk && c in DirectoryPlan(e, srcRoot, destRoot)
    decreases |walk|
  {
    var init := walk[..|walk| - 1];
    var last := walk[|walk| - 1];
    assert WalkPlan(walk, srcRoot, destRoot) == WalkPlan(init, srcRoot, destRoot) + DirectoryPlan(last, srcRoot, destRoot);
    if c in WalkPlan(init, srcRoot, destRoot) {
      WalkPlanSound(init, srcRoot, destRoot, c);
      var e :| e in init && c in DirectoryPlan(e, srcRoot, destRoot);
      assert e in walk;
    } else {
      assert last in walk;
    }
  }

  /** Every copy planned for a walked directory is in the walk plan. */
  lemma {:induction false} WalkPlanComplete(walk: seq<WalkEntry>, srcRoot: Path, destRoot: Path, e: WalkEntry, c: Copy)
    requires e in walk && c in DirectoryPlan(e, srcRoot, destRoot)
    ensures c in WalkPlan(walk, srcRoot, destRoot)
    decreases |walk|
  {
    var init := walk[..|walk| - 1];
    var last := walk[|walk| - 1];
    assert WalkPlan(walk, srcRoot, destRoot) == WalkPlan(init, srcRoot, destRoot) + DirectoryPlan(last, srcRoot, destRoot);
    var i :| 0 <= i < |walk| && walk[i] == e;
    if i < |walk| - 1 {
      assert init[i] == e;
      WalkPlanComplete(init, srcRoot, destRoot, e, c);
    }
  }

  /** The walk plan copies exactly the wanted files of the directories whose
      name does not contain "raw", each to the mirrored directory. */
  lemma WalkPlanExact(walk: seq<WalkEntry>, srcRoot: Path, destRoot: Path, c: Copy)
    ensures c in WalkPlan(walk, srcRoot, destRoot) <==>
      exists e, f :: e in walk && !RawDirectory(e.root) && f in e.files && Wanted(f)
                     && c == Copy(e.root + [f], TargetIn(e.root, f, srcRoot, destRoot))
  {
    if c in WalkPlan(walk, srcRoot, destRoot) {
      WalkPlanSound(walk, srcRoot, destRoot, c);
      var e :| e in walk && c in DirectoryPlan(e, srcRoot, destRoot);
      FilesPlanExact(e.root, e.files, srcRoot, destRoot, c);
      var f :| f in e.files && Wanted(f) && c == Copy(e.root + [f], TargetIn(e.root, f, srcRoot, destRoot));
    }
    if exists e, f :: e in walk && !RawDirectory(e.root) && f in e.files && Wanted(f)
                      && c == Copy(e.root + [f], TargetIn(e.root, f, srcRoot, destRoot)) {
      var e, f :| e in walk && !RawDirectory(e.root) && f in e.files && Wanted(f)
                  && c == Copy(e.root + [f], TargetIn(e.root, f, srcRoot, destRoot));
      FilesPlanExact(e.root, e.files, srcRoot, destRoot, c);
      WalkPlanComplete(walk, srcRoot, destRoot, e, c);
    }
  }

  /** After the walk pass, every wanted file of a directory that is not raw,
      that exists and whose copy does not raise, is at its mirrored place. */
  lemma WalkFilesArrive(walk: seq<WalkEntry>, srcRoot: Path, destRoot: Path, src: Tree, failing: set<Path>,
                        t: Tally, e: WalkEntry, f: string)
    requires e in walk && !RawDirectory(e.root) && f in e.files && Wanted(f)
    requires e.root + [f] in src && e.root + [f] !in failing
    ensures TargetIn(e.root, f, srcRoot, destRoot) in Run(WalkPlan(walk, srcRoot, destRoot), src, failing, t).tree
  {
    var c := Copy(e.root + [f], TargetIn(e.root, f, srcRoot, destRoot));
    WalkPlanExact(walk, srcRoot, destRoot, c);
    RunSettles(WalkPlan(walk, srcRoot, destRoot), src, failing, t);
  }

  lemma {:induction false} RunAppend(p: seq<Copy>, q: seq<Copy>, src: Tree, failing: set<Path>, t: Tally)
    ensures Run(p + q, src, failing, t) == Run(q, src, failing, Run(p, src, failing, t))
    decreases |p|
  {
    if p != [] {
      assert (p + q)[1..] == p[1..] + q;
      RunAppend(p[1..], q, src, failing, Step(t, p[0], src, failing));
    } else {
      assert p + q == q;
    }
  }

  /** One file of `copy_by_directory_structure`'s inner loop: a wanted file
      is copied to the mirrored directory, unless its place is taken. */
  method CopyFile(root: Path, file: string, srcRoot: Path, destRoot: Path, src: Tree,
                  failing: set<Path>, t: Tally)
    returns (t': Tally)
    ensures t' == Run(NamePlan(root, file, srcRoot, destRoot), src, failing, t)
  {
    t' := t;
    if Wanted(file) {
      var source := root + [file];
      var target := destRoot + RelPath(root, srcRoot) + [file];
      t' := CopyOne(t, source, target, src, failing);
    }
  }

  /** The files of one directory, as the inner loop of `copy_by_directory_structure`
      handles them. */
  method CopyDirectory(root: Path, files: seq<string>, srcRoot: Path, destRoot: Path, src: Tree,
                       failing: set<Path>, start: Tally)
    returns (t: Tally)
    ensures t == Run(FilesPlan(root, files, srcRoot, destRoot), src, failing, start)
  {
    t := start;
    var j := 0;
    while j < |files|
      invariant 0 <= j <= |files|
      invariant t == Run(FilesPlan(root, files[..j], srcRoot, destRoot), src, failing, start)
    {
      var file := files[j];
      FilesPlanSnoc(root, files, j, srcRoot, destRoot);
      ghost var done := FilesPlan(root, files[..j], srcRoot, destRoot);
      RunAppend(done, NamePlan(root, file, srcRoot, destRoot), src, failing, start);
      t := CopyFile(root, file, srcRoot, destRoot, src, failing, t);
      assert t == Run(FilesPlan(root, files[..j + 1], srcRoot, destRoot), src, failing, start);
      j := j + 1;
    }
    assert files[..j] == files;
  }

  /** `copy_by_directory_structure`. */
  method CopyByDirectoryStructure(walk: seq<WalkEntry>, srcRoot: Path, destRoot: Path, src: Tree,
                                  failing: set<Path>, tree: Tree)
    returns (tree': Tree, copied: nat, skipped: nat)
    ensures Tally(tree', copied, skipped) == Run(WalkPlan(walk, srcRoot, destRoot), src, failing, Tally(tree, 0, 0))
  {
    var t := Tally(tree, 0, 0);
    var i := 0;
    while i < |walk|
      invariant 0 <= i <= |walk|
      invariant t == Run(WalkPlan(walk[..i], srcRoot, destRoot), src, failing, Tally(tree, 0, 0))
    {
      var entry := walk[i];
      WalkPlanSnoc(walk, i, srcRoot, destRoot);
      ghost var done := WalkPlan(walk[..i], srcRoot, destRoot);
      if RawDirectory(entry.root) {
        assert done + [] == done;
        i := i + 1;
        continue;
      }
      t := CopyDirectory(entry.root, entry.files, srcRoot, destRoot, src, failing, t);
      RunAppend(done, FilesPlan(entry.root, entry.files, srcRoot, destRoot), src, failing, Tally(tree, 0, 0));
      assert t == Run(WalkPlan(walk[..i + 1], srcRoot, destRoot), src, failing, Tally(tree, 0, 0));
      i := i + 1;
    }
    assert walk[..i] == walk;
    tree', copied, skipped := t.tree, t.copied, t.skipped;
  }

  /** Roots listed by `os.walk(SOURCE_FOLDER)` lie inside the folder, so every
      planned file lies strictly inside it and is mirrored at the same relative
      place. */
  lemma {:induction false} WalkPlanMirrors(walk: seq<WalkEntry>, srcRoot: Path, destRoot: Path, c: Copy)
    requires forall i :: 0 <= i < |walk| ==> srcRoot <= walk[i].root
    requires c in WalkPlan(walk, srcRoot, destRoot)
    ensures srcRoot < c.source
    ensures c.target == MirrorPath(c.source, srcRoot, destRoot) == destRoot + c.source[|srcRoot|..]
    decreases |walk|
  {
    var init := walk[..|walk| - 1];
    var last := walk[|walk| - 1];
    if c in WalkPlan(init, srcRoot, destRoot) {
      WalkPlanMirrors(init, srcRoot, destRoot, c);
    } else {
      assert c in DirectoryPlan(last, srcRoot, destRoot);
      assert c.source == last.root + [Basename(c.source)];
      MirrorPathBelow(c.source, srcRoot, destRoot);
    }
  }

  // =======================================================================
  // main
  // =======================================================================

  /** `main`: the ledger drives the copy when `metadata.json` decodes to a
      document with a "files" key; in every other case the directory walk does. */
  method Replicate(meta: MetadataFile, walk: seq<WalkEntry>, srcRoot: Path, destRoot: Path, src: Tree,
                   failing: set<Path>, tree: Tree)
    returns (usedWalk: bool, tree': Tree)
    ensures usedWalk <==> !(meta.Parsed? && meta.doc.files.Some?)
    ensures usedWalk ==>
      tree' == Run(WalkPlan(walk, srcRoot, destRoot), src, failing, Tally(tree, 0, 0)).tree
    ensures !usedWalk ==>
      tree' == Run(MetadataPlan(meta.doc.files.value, src, srcRoot, destRoot), src, failing, Tally(tree, 0, 0)).tree
  {
    var metadata := LoadMetadata(meta);
    var success := false;
    tree' := tree;
    if metadata.Some? && Truthy(metadata.value) {
      var copied, skipped;
      success, tree', copied, skipped := CopyFromMetadata(metadata.value, srcRoot, destRoot, src, failing, tree);
    }
    if !success {
      var copied, skipped;
      tree', copied, skipped := CopyByDirectoryStructure(walk, srcRoot, destRoot, src, failing, tree);
    }
    usedWalk := !success;
  }
}
