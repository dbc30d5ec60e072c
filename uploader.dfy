/**
 * Model of `src/cmd/uploader.py`: mirrors the `.txt` files of a local
 * archive into Google Drive as Google Docs, one Drive folder per local
 * folder. A JSON file maps local relative paths to Drive IDs in two tables,
 * `folders` and `files`, so that a second run creates nothing already
 * created.
 *
 * Drive is a fresh-ID generator that records every create request; the
 * mapping file is the snapshot of the tables last saved. The functions
 * `EnsureFolder`, `EnsureDoc` and `UploadDocs` say on values what the
 * methods do to the objects, and the lemmas about them state the
 * properties of the mapping.
 */
module Uploader {
  import opened Base
  import opened Strings
  import opened PosixPath

  /** `LOCAL_REPO_PATH`. */
  const LocalRepoPath := "./data/Archivos_Scan_RBML/Archives"

  /** `os.path.basename(os.path.abspath(LOCAL_REPO_PATH))`: the last component of the repository path (see `RepoRootNameOfPath`). */
  const RepoRootName := "Archives"

  /** `DRIVE_PARENT_FOLDER_ID`: the Drive folder the mirror is rooted in. */
  const DriveParentFolderId := "1eHiqnzJHjiB65_Vaz9CgmvYH_oyatwmC"

  const FolderMimeType := "application/vnd.google-apps.folder"
  const DocMimeType := "application/vnd.google-apps.document"

  /** The mapping: local relative path to Drive ID, for folders and for files. */
  datatype Tables = Tables(folders: map<string, string>, files: map<string, string>)

  /** `load_mapping`: the tables of the mapping file, or two empty tables when there is none. */
  function LoadMapping(stored: Option<Tables>): (t: Tables)
    ensures stored.None? ==> t.folders == map[] && t.files == map[]
    ensures stored.Some? ==> t == stored.value
  {
    match stored
    case None => Tables(map[], map[])
    case Some(tables) => tables
  }

  // ---------------------------------------------------------------------
  // Drive requests
  // ---------------------------------------------------------------------

  /**
   * A `files().create` call, by the local path it is made for: a folder
   * under a parent ID, or a Doc with its text under a folder ID. The members
   * give the metadata the call sends.
   */
  datatype Request =
    | CreateFolder(path: string, parentId: string)
    | CreateDoc(path: string, folderId: string, text: string)
  {
    /** The `name` of the metadata. */
    function Name(): string {
      match this
      case CreateFolder(p, _) => FolderName(p)
      case CreateDoc(p, _, _) => DocName(p)
    }

    /** The `mimeType` of the metadata. */
    function MimeType(): string {
      if CreateFolder? then FolderMimeType else DocMimeType
    }

    /** The `parents` of the metadata. */
    function Parents(): seq<string> {
      ParentsEntry(if CreateFolder? then parentId else folderId)
    }

    /** The plain-text media body, for a Doc. */
    function Content(): Option<string> {
      if CreateFolder? then None else Some(text)
    }
  }

  /** The `parents` entry of the metadata: present only when the parent ID is non-empty (`if parent_id:`). */
  function ParentsEntry(parentId: string): (r: seq<string>)
    ensures parentId != "" ==> r == [parentId]
    ensures parentId == "" ==> r == []
  {
    if parentId != "" then [parentId] else []
  }

  /** The ID Drive hands out for its `n`-th create call: the numeral of `n`. */
  function DriveId(n: nat): string {
    Decimal(n)
  }

  /** Drive IDs are non-empty and never handed out twice. */
  lemma DriveIdFresh(m: nat, n: nat)
    ensures DriveId(n) != ""
    ensures DriveId(m) == DriveId(n) ==> m == n
  {
    DecimalShape(n);
    DecimalValue(m);
    DecimalValue(n);
  }

  // ---------------------------------------------------------------------
  // Names
  // ---------------------------------------------------------------------

  /** The last component of a path holds no `/`. */
  lemma BasenameIsComponent(p: string)
    ensures forall i :: 0 <= i < |Basename(p)| ==> Basename(p)[i] != '/'
  {
    RFindSpec(p, '/');
    var k := RFind(p, '/') + 1;
    forall i | 0 <= i < |Basename(p)|
      ensures Basename(p)[i] != '/'
    {
      assert Basename(p)[i] == p[k + i];
    }
  }

  /** `abspath` keeps the last component of the repository path, as it does not end in `/`, `.` or `..`. */
  lemma RepoRootNameOfPath()
    ensures Basename(LocalRepoPath) == RepoRootName
  {
    var p := LocalRepoPath;
    assert |p| == 34 && p[25] == '/';
    assert forall j :: 25 < j < |p| ==> p[j] != '/';
    RFindAt(p, '/', 25);
    assert p[26..] == RepoRootName;
  }

  /**
   * The new folder's name in `create_folder_if_not_exists`: the path's
   * basename, or for the top folder `""` the last component of
   * `LOCAL_REPO_PATH`.
   */
  function FolderName(p: string): string {
    var name := if p != "" then Basename(p) else LocalRepoPath;
    if name == LocalRepoPath then RepoRootName else name
  }

  /** The top folder is named after the repository, every other folder after its last component. */
  lemma FolderNameSpec(p: string)
    ensures p == "" ==> FolderName(p) == RepoRootName
    ensures p != "" ==> FolderName(p) == Basename(p)
  {
    if p != "" {
      BasenameIsComponent(p);
      assert LocalRepoPath[1] == '/';
      assert Basename(p) != LocalRepoPath by {
        if |Basename(p)| > 1 {
          assert Basename(p)[1] != '/';
        }
      }
    }
  }

  /** The Doc's title in `create_doc_if_not_exists`: the file name without its extension. */
  function DocName(p: string): string {
    Splitext(Basename(p)).0
  }

  /** `splitext` takes `.txt` off a file name, unless the name before it is only dots. */
  lemma SplitextOfTxtName(stem: string, i: nat)
    requires IsName(stem + ".txt")
    requires i < |stem| && stem[i] != '.'
    ensures Splitext(stem + ".txt").0 == stem
  {
    var n, ext := stem + ".txt", ".txt";
    assert n[|n| - 4..] == ext;
    assert IsOneExtension(ext);
    RFindAt(n, '/', -1);
    assert n[i] == stem[i];
    HasNonDotAt(n, 0, |n| - 4, i);
    SplitextAt(n, ext, |n| - 4);
    assert n[..|n| - 4] == stem;
  }

  /** A `.txt` file is titled with its name before the extension, unless that is only dots. */
  lemma DocNameOfTxt(dir: string, stem: string, i: nat)
    requires IsRelative(dir) && IsName(stem + ".txt")
    requires i < |stem| && stem[i] != '.'
    ensures DocName(Join(dir, stem + ".txt")) == stem
  {
    JoinName(dir, stem + ".txt");
    SplitextOfTxtName(stem, i);
  }

  // ---------------------------------------------------------------------
  // `create_folder_if_not_exists` and `create_doc_if_not_exists` on values
  // ---------------------------------------------------------------------

  /** The new tables, the create requests made in order, and the ID returned. */
  datatype Outcome = Outcome(tables: Tables, requests: seq<Request>, id: string)

  /**
   * `create_folder_if_not_exists(p)` with Drive's counter at `next`: a mapped
   * folder gives its ID; otherwise the parent folder is ensured first (for a
   * path with a non-empty `dirname`), then the folder is created under it, or
   * under `DRIVE_PARENT_FOLDER_ID`, and mapped.
   */
  function EnsureFolder(t: Tables, next: nat, p: string): Outcome
    requires IsRelative(p)
    decreases |p|
  {
    if p in t.folders then Outcome(t, [], t.folders[p])
    else
      var up :=
        if p != "" && Dirname(p) != "" then (DirnameOfRelative(p); EnsureFolder(t, next, Dirname(p)))
        else Outcome(t, [], DriveParentFolderId);
      var id := DriveId(next + |up.requests|);
      Outcome(up.tables.(folders := up.tables.folders[p := id]),
              up.requests + [CreateFolder(p, up.id)], id)
  }

  /** `p` and its non-empty ancestors, following `dirname` upwards. */
  function Chain(p: string): (r: seq<string>)
    requires IsRelative(p)
    ensures |r| >= 1 && r[0] == p
    ensures forall i :: 0 <= i < |r| ==> |r[i]| <= |p| && IsRelative(r[i])
    decreases |p|
  {
    if p != "" && Dirname(p) != "" then (DirnameOfRelative(p); [p] + Chain(Dirname(p))) else [p]
  }

  /** The folders of `p`'s chain up to, not including, the first one mapped: the ones it creates. */
  function Unmapped(folders: map<string, string>, p: string): (r: seq<string>)
    requires IsRelative(p)
    ensures r != [] ==> r[0] == p
    decreases |p|
  {
    if p in folders then []
    else if p != "" && Dirname(p) != "" then (DirnameOfRelative(p); [p] + Unmapped(folders, Dirname(p)))
    else [p]
  }

  /** The folders of the chain that get created are relative, no longer than `p`, and unmapped. */
  lemma {:induction false} UnmappedAt(folders: map<string, string>, p: string, i: nat)
    requires IsRelative(p) && i < |Unmapped(folders, p)|
    ensures var q := Unmapped(folders, p)[i]; |q| <= |p| && IsRelative(q) && q !in folders
    decreases |p|
  {
    if i > 0 {
      DirnameOfRelative(p);
      UnmappedAt(folders, Dirname(p), i - 1);
    }
  }

  /** Every mapped folder's parent folder is mapped too. */
  predicate Closed(folders: map<string, string>) {
    forall q :: q in folders && q != "" && Dirname(q) != "" ==> Dirname(q) in folders
  }

  /** Ensuring a folder leaves the files table alone. */
  lemma {:induction false} EnsureFolderFiles(t: Tables, next: nat, p: string)
    requires IsRelative(p)
    ensures EnsureFolder(t, next, p).tables.files == t.files
    decreases |p|
  {
    if p !in t.folders && p != "" && Dirname(p) != "" {
      DirnameOfRelative(p);
      EnsureFolderFiles(t, next, Dirname(p));
    }
  }

  /** Ensuring a folder keeps every existing folder entry. */
  lemma {:induction false} EnsureFolderKeeps(t: Tables, next: nat, p: string)
    requires IsRelative(p)
    ensures forall q :: q in t.folders ==>
      q in EnsureFolder(t, next, p).tables.folders && EnsureFolder(t, next, p).tables.folders[q] == t.folders[q]
    decreases |p|
  {
    if p !in t.folders && p != "" && Dirname(p) != "" {
      DirnameOfRelative(p);
      EnsureFolderKeeps(t, next, Dirname(p));
    }
  }

  /** Ensuring a folder adds exactly the folders of its chain that were unmapped below the first mapped one. */
  lemma {:induction false} EnsureFolderKeys(t: Tables, next: nat, p: string)
    requires IsRelative(p)
    ensures forall q :: q in EnsureFolder(t, next, p).tables.folders <==> q in t.folders || q in Unmapped(t.folders, p)
    decreases |p|
  {
    if p !in t.folders && p != "" && Dirname(p) != "" {
      DirnameOfRelative(p);
      var d := Dirname(p);
      EnsureFolderKeys(t, next, d);
      assert Unmapped(t.folders, p) == [p] + Unmapped(t.folders, d);
    }
  }

  /** Ensuring a folder makes one create request per unmapped folder of its chain. */
  lemma {:induction false} EnsureFolderCount(t: Tables, next: nat, p: string)
    requires IsRelative(p)
    ensures |EnsureFolder(t, next, p).requests| == |Unmapped(t.folders, p)|
    decreases |p|
  {
    if p !in t.folders && p != "" && Dirname(p) != "" {
      DirnameOfRelative(p);
      EnsureFolderCount(t, next, Dirname(p));
    }
  }

  /** Ensuring a folder maps it, to the ID it returns. */
  lemma EnsureFolderMaps(t: Tables, next: nat, p: string)
    requires IsRelative(p)
    ensures p in EnsureFolder(t, next, p).tables.folders
    ensures EnsureFolder(t, next, p).id == EnsureFolder(t, next, p).tables.folders[p]
  {
  }

  /**
   * Ensuring a folder maps it, creates exactly the folders of its chain that
   * were unmapped below the first mapped one, keeps every existing entry and
   * does not touch the files table.
   */
  lemma EnsureFolderSpec(t: Tables, next: nat, p: string)
    requires IsRelative(p)
    ensures EnsureFolder(t, next, p).tables.files == t.files
    ensures forall q :: q in t.folders ==>
      q in EnsureFolder(t, next, p).tables.folders && EnsureFolder(t, next, p).tables.folders[q] == t.folders[q]
    ensures forall q :: q in EnsureFolder(t, next, p).tables.folders <==> q in t.folders || q in Unmapped(t.folders, p)
    ensures |EnsureFolder(t, next, p).requests| == |Unmapped(t.folders, p)|
    ensures p in EnsureFolder(t, next, p).tables.folders
    ensures EnsureFolder(t, next, p).id == EnsureFolder(t, next, p).tables.folders[p]
  {
    EnsureFolderFiles(t, next, p);
    EnsureFolderKeeps(t, next, p);
    EnsureFolderKeys(t, next, p);
    EnsureFolderCount(t, next, p);
  }

  /**
   * Request `i` of `o` created folder `q`: it is named by `FolderName`, placed
   * under the ID its parent folder is mapped to, or under
   * `DRIVE_PARENT_FOLDER_ID` for a single-component path, and `q` is mapped to
   * the ID Drive handed out for it.
   */
  predicate CreatedAs(o: Outcome, next: nat, i: nat, q: string) {
    i < |o.requests| && q in o.tables.folders && o.tables.folders[q] == DriveId(next + i) &&
    if q != "" && Dirname(q) != "" then
      Dirname(q) in o.tables.folders && o.requests[i] == CreateFolder(q, o.tables.folders[Dirname(q)])
    else
      o.requests[i] == CreateFolder(q, DriveParentFolderId)
  }

  /**
   * Mapping a longer path `p` and making one more request keeps what an
   * earlier request created: request `|ud| - j` still created `ud[j - 1]`,
   * which is folder `j` of the chain `u == [p] + ud`.
   */
  lemma CreatedAsKept(up: Outcome, o: Outcome, next: nat, p: string, ud: seq<string>, u: seq<string>, j: nat)
    requires u == [p] + ud && 0 < j <= |ud| && IsRelative(ud[j - 1]) && |ud[j - 1]| < |p|
    requires CreatedAs(up, next, |ud| - 1 - (j - 1), ud[j - 1])
    requires o.tables.folders == up.tables.folders[p := o.id] && o.requests == up.requests + [CreateFolder(p, up.id)]
    ensures CreatedAs(o, next, |u| - 1 - j, u[j])
  {
    var q := ud[j - 1];
    assert u[j] == q;
    if q != "" && Dirname(q) != "" {
      DirnameOfRelative(q);
    }
  }

  /** An unmapped folder is created by the last request, under its parent's final ID. */
  lemma EnsureFolderLast(t: Tables, next: nat, p: string)
    requires IsRelative(p) && p !in t.folders
    ensures CreatedAs(EnsureFolder(t, next, p), next, |Unmapped(t.folders, p)| - 1, p)
  {
    if p != "" && Dirname(p) != "" {
      DirnameOfRelative(p);
      EnsureFolderCount(t, next, Dirname(p));
      EnsureFolderMaps(t, next, Dirname(p));
    }
  }

  /**
   * The metadata of the request that creates an unmapped folder: its name,
   * the folder type, no media body, and `parents` holding the parent's ID, or
   * the Drive parent folder's for a single-component path.
   */
  lemma EnsureFolderMetadata(t: Tables, next: nat, p: string)
    requires IsRelative(p) && p !in t.folders
    ensures var o := EnsureFolder(t, next, p);
      o.requests != [] &&
      o.requests[|o.requests| - 1].Name() == FolderName(p) &&
      o.requests[|o.requests| - 1].MimeType() == FolderMimeType &&
      o.requests[|o.requests| - 1].Content() == None
    ensures var o := EnsureFolder(t, next, p);
      o.requests != [] && (p == "" || Dirname(p) == "") ==> o.requests[|o.requests| - 1].Parents() == [DriveParentFolderId]
    ensures var o := EnsureFolder(t, next, p);
      o.requests != [] && p != "" && Dirname(p) != "" ==>
        Dirname(p) in o.tables.folders && o.requests[|o.requests| - 1].Parents() == ParentsEntry(o.tables.folders[Dirname(p)])
  {
    EnsureFolderLast(t, next, p);
    EnsureFolderCount(t, next, p);
  }

  /** Ensuring an unmapped folder below the top ensures its parent folder first, then makes one more request. */
  lemma EnsureFolderUp(t: Tables, next: nat, p: string)
    requires IsRelative(p) && |Unmapped(t.folders, p)| > 1
    ensures p !in t.folders && p != "" && Dirname(p) != "" && IsRelative(Dirname(p)) && |Dirname(p)| < |p|
    ensures Unmapped(t.folders, p) == [p] + Unmapped(t.folders, Dirname(p))
    ensures var o, up := EnsureFolder(t, next, p), EnsureFolder(t, next, Dirname(p));
      o.tables.folders == up.tables.folders[p := o.id] && o.requests == up.requests + [CreateFolder(p, up.id)]
  {
    DirnameOfRelative(p);
  }

  /** The folder `j` steps up the chain of unmapped ones is created by the `j`-th last request. */
  lemma {:induction false} EnsureFolderRequestAt(t: Tables, next: nat, p: string, j: nat)
    requires IsRelative(p) && j < |Unmapped(t.folders, p)|
    ensures CreatedAs(EnsureFolder(t, next, p), next, |Unmapped(t.folders, p)| - 1 - j, Unmapped(t.folders, p)[j])
    decreases |p|, 1
  {
    if j == 0 {
      EnsureFolderLast(t, next, p);
    } else {
      EnsureFolderRequestAbove(t, next, p, j);
    }
  }

  /** The same for a folder above `p`: it was created by the parent's requests, which come first. */
  lemma {:induction false} EnsureFolderRequestAbove(t: Tables, next: nat, p: string, j: nat)
    requires IsRelative(p) && 0 < j < |Unmapped(t.folders, p)|
    ensures CreatedAs(EnsureFolder(t, next, p), next, |Unmapped(t.folders, p)| - 1 - j, Unmapped(t.folders, p)[j])
    decreases |p|, 0
  {
    EnsureFolderUp(t, next, p);
    var d := Dirname(p);
    EnsureFolderRequestAt(t, next, d, j - 1);
    UnmappedAt(t.folders, d, j - 1);
    CreatedAsKept(EnsureFolder(t, next, d), EnsureFolder(t, next, p), next, p, Unmapped(t.folders, d), Unmapped(t.folders, p), j);
  }

  /** The create requests go top-down: each unmapped folder of the chain is created under its parent, parents first. */
  lemma EnsureFolderRequests(t: Tables, next: nat, p: string)
    requires IsRelative(p)
    ensures forall j :: 0 <= j < |Unmapped(t.folders, p)| ==>
      CreatedAs(EnsureFolder(t, next, p), next, |Unmapped(t.folders, p)| - 1 - j, Unmapped(t.folders, p)[j])
  {
    forall j | 0 <= j < |Unmapped(t.folders, p)|
      ensures CreatedAs(EnsureFolder(t, next, p), next, |Unmapped(t.folders, p)| - 1 - j, Unmapped(t.folders, p)[j])
    {
      EnsureFolderRequestAt(t, next, p, j);
    }
  }

  /** Ensuring a folder that is mapped changes nothing and returns its ID; so ensuring a folder twice creates it once. */
  lemma EnsureFolderIdempotent(t: Tables, next: nat, next': nat, p: string)
    requires IsRelative(p)
    ensures p in t.folders ==> EnsureFolder(t, next, p) == Outcome(t, [], t.folders[p])
    ensures var o := EnsureFolder(t, next, p);
      EnsureFolder(o.tables, next', p) == Outcome(o.tables, [], o.id)
  {
    EnsureFolderSpec(t, next, p);
  }

  /** In a closed table, the whole chain of a mapped folder is mapped. */
  lemma {:induction false} ClosedChain(folders: map<string, string>, p: string)
    requires IsRelative(p) && Closed(folders) && p in folders
    ensures forall q :: q in Chain(p) ==> q in folders
    decreases |p|
  {
    if p != "" && Dirname(p) != "" {
      DirnameOfRelative(p);
      ClosedChain(folders, Dirname(p));
    }
  }

  /**
   * When every mapped folder's parent is mapped, as it is for tables built
   * only by this program, ensuring a folder keeps that so, maps its whole
   * chain, and creates exactly the folders of the chain that were unmapped.
   */
  lemma {:induction false} EnsureFolderClosed(t: Tables, next: nat, p: string)
    requires IsRelative(p) && Closed(t.folders)
    ensures Closed(EnsureFolder(t, next, p).tables.folders)
    ensures forall q :: q in Chain(p) ==> q in EnsureFolder(t, next, p).tables.folders
    ensures forall q :: q in Unmapped(t.folders, p) <==> q in Chain(p) && q !in t.folders
    decreases |p|
  {
    if p in t.folders {
      ClosedChain(t.folders, p);
    } else if p != "" && Dirname(p) != "" {
      DirnameOfRelative(p);
      var d := Dirname(p);
      EnsureFolderClosed(t, next, d);
      EnsureFolderSpec(t, next, d);
      assert Unmapped(t.folders, p) == [p] + Unmapped(t.folders, d);
      assert Chain(p) == [p] + Chain(d);
    }
  }

  /**
   * `create_doc_if_not_exists(p, text)` with Drive's counter at `next`: a
   * mapped file gives its ID; otherwise the folder of its `dirname` is
   * ensured (a file at the top goes under `DRIVE_PARENT_FOLDER_ID`), then the
   * Doc is created there with the text and mapped.
   */
  function EnsureDoc(t: Tables, next: nat, p: string, text: string): Outcome
    requires IsRelative(p)
  {
    if p in t.files then Outcome(t, [], t.files[p])
    else
      var up :=
        if Dirname(p) != "" then (DirnameOfRelative(p); EnsureFolder(t, next, Dirname(p)))
        else Outcome(t, [], DriveParentFolderId);
      var id := DriveId(next + |up.requests|);
      Outcome(up.tables.(files := up.tables.files[p := id]),
              up.requests + [CreateDoc(p, up.id, text)], id)
  }

  /** Ensuring a Doc maps the file, to the ID it returns. */
  lemma EnsureDocMaps(t: Tables, next: nat, p: string, text: string)
    requires IsRelative(p)
    ensures p in EnsureDoc(t, next, p, text).tables.files
    ensures EnsureDoc(t, next, p, text).id == EnsureDoc(t, next, p, text).tables.files[p]
  {
  }

  /** Ensuring a Doc keeps every existing file entry. */
  lemma EnsureDocKeepsFiles(t: Tables, next: nat, p: string, text: string)
    requires IsRelative(p)
    ensures forall q :: q in t.files ==>
      q in EnsureDoc(t, next, p, text).tables.files && EnsureDoc(t, next, p, text).tables.files[q] == t.files[q]
  {
    if p !in t.files && Dirname(p) != "" {
      DirnameOfRelative(p);
      EnsureFolderFiles(t, next, Dirname(p));
    }
  }

  /** Ensuring a Doc keeps every existing folder entry. */
  lemma EnsureDocKeepsFolders(t: Tables, next: nat, p: string, text: string)
    requires IsRelative(p)
    ensures forall q :: q in t.folders ==>
      q in EnsureDoc(t, next, p, text).tables.folders && EnsureDoc(t, next, p, text).tables.folders[q] == t.folders[q]
  {
    if p !in t.files && Dirname(p) != "" {
      DirnameOfRelative(p);
      EnsureFolderKeeps(t, next, Dirname(p));
    }
  }

  /** After ensuring a Doc the file is mapped to the returned ID, and every earlier entry of both tables is kept. */
  lemma EnsureDocKeeps(t: Tables, next: nat, p: string, text: string)
    requires IsRelative(p)
    ensures p in EnsureDoc(t, next, p, text).tables.files
    ensures EnsureDoc(t, next, p, text).id == EnsureDoc(t, next, p, text).tables.files[p]
    ensures forall q :: q in t.files ==>
      q in EnsureDoc(t, next, p, text).tables.files && EnsureDoc(t, next, p, text).tables.files[q] == t.files[q]
    ensures forall q :: q in t.folders ==>
      q in EnsureDoc(t, next, p, text).tables.folders && EnsureDoc(t, next, p, text).tables.folders[q] == t.folders[q]
  {
    EnsureDocMaps(t, next, p, text);
    EnsureDocKeepsFiles(t, next, p, text);
    EnsureDocKeepsFolders(t, next, p, text);
  }

  /** A Doc request is made exactly when the file was unmapped; without one the tables are unchanged. */
  lemma EnsureDocNothing(t: Tables, next: nat, p: string, text: string)
    requires IsRelative(p)
    ensures EnsureDoc(t, next, p, text).requests == [] <==> p in t.files
    ensures EnsureDoc(t, next, p, text).requests == [] ==> EnsureDoc(t, next, p, text).tables == t
  {
  }

  /**
   * Ensuring an unmapped Doc ensures the folder of its `dirname` (nothing for
   * a file at the top), then makes one more request: a Doc with the text,
   * titled by `DocName`, under the ID that folder is mapped to or under
   * `DRIVE_PARENT_FOLDER_ID`; the file alone is added to the files table, under
   * the last fresh ID.
   */
  lemma EnsureDocNew(t: Tables, next: nat, p: string, text: string)
    requires IsRelative(p) && p !in t.files
    ensures var o := EnsureDoc(t, next, p, text);
      o.tables.files == t.files[p := o.id] && |o.requests| >= 1 && o.id == DriveId(next + |o.requests| - 1)
    ensures var o, d := EnsureDoc(t, next, p, text), Dirname(p);
      d == "" ==> o.tables.folders == t.folders && o.requests == [CreateDoc(p, DriveParentFolderId, text)]
    ensures var o, d := EnsureDoc(t, next, p, text), Dirname(p);
      d != "" ==>
        (IsRelative(d) && d in o.tables.folders &&
         o.tables.folders == EnsureFolder(t, next, d).tables.folders &&
         o.requests == EnsureFolder(t, next, d).requests + [CreateDoc(p, o.tables.folders[d], text)] &&
         |o.requests| == 1 + |Unmapped(t.folders, d)|)
  {
    if Dirname(p) != "" {
      DirnameOfRelative(p);
      EnsureFolderSpec(t, next, Dirname(p));
    }
  }

  /**
   * The metadata of the request that uploads an unmapped file: the Doc title,
   * the Doc type, the text as media body, and `parents` holding its folder's
   * ID, or the Drive parent folder's for a file at the top.
   */
  lemma EnsureDocMetadata(t: Tables, next: nat, p: string, text: string)
    requires IsRelative(p) && p !in t.files
    ensures var o := EnsureDoc(t, next, p, text);
      o.requests != [] &&
      o.requests[|o.requests| - 1].Name() == DocName(p) &&
      o.requests[|o.requests| - 1].MimeType() == DocMimeType &&
      o.requests[|o.requests| - 1].Content() == Some(text)
    ensures var o := EnsureDoc(t, next, p, text);
      o.requests != [] && Dirname(p) == "" ==> o.requests[|o.requests| - 1].Parents() == [DriveParentFolderId]
    ensures var o := EnsureDoc(t, next, p, text);
      o.requests != [] && Dirname(p) != "" ==>
        Dirname(p) in o.tables.folders && o.requests[|o.requests| - 1].Parents() == ParentsEntry(o.tables.folders[Dirname(p)])
  {
    EnsureDocLast(t, next, p, text);
    var o := EnsureDoc(t, next, p, text);
    var r := o.requests[|o.requests| - 1];
    assert r == CreateDoc(p, r.folderId, text);
    DocRequestMetadata(p, r.folderId, text);
  }

  /** The metadata a Doc request sends. */
  lemma DocRequestMetadata(p: string, folderId: string, text: string)
    ensures CreateDoc(p, folderId, text).Name() == DocName(p)
    ensures CreateDoc(p, folderId, text).MimeType() == DocMimeType
    ensures CreateDoc(p, folderId, text).Content() == Some(text)
    ensures CreateDoc(p, folderId, text).Parents() == ParentsEntry(folderId)
  {
  }

  /** The last request of uploading an unmapped file creates its Doc, with its text, under its folder's ID. */
  lemma EnsureDocLast(t: Tables, next: nat, p: string, text: string)
    requires IsRelative(p) && p !in t.files
    ensures var o := EnsureDoc(t, next, p, text);
      o.requests != [] && o.requests[|o.requests| - 1].CreateDoc? &&
      o.requests[|o.requests| - 1].path == p && o.requests[|o.requests| - 1].text == text
    ensures var o := EnsureDoc(t, next, p, text);
      o.requests != [] && o.requests[|o.requests| - 1].CreateDoc? && Dirname(p) == "" ==>
        o.requests[|o.requests| - 1].folderId == DriveParentFolderId
    ensures var o := EnsureDoc(t, next, p, text);
      o.requests != [] && o.requests[|o.requests| - 1].CreateDoc? && Dirname(p) != "" ==>
        Dirname(p) in o.tables.folders && o.requests[|o.requests| - 1].folderId == o.tables.folders[Dirname(p)]
  {
    EnsureDocNew(t, next, p, text);
  }

  /** Ensuring a mapped Doc changes nothing; so ensuring a Doc twice uploads it once, whatever the second text. */
  lemma EnsureDocIdempotent(t: Tables, next: nat, next': nat, p: string, text: string, text': string)
    requires IsRelative(p)
    ensures p in t.files ==> EnsureDoc(t, next, p, text) == Outcome(t, [], t.files[p])
    ensures var o := EnsureDoc(t, next, p, text);
      EnsureDoc(o.tables, next', p, text') == Outcome(o.tables, [], o.id)
  {
    EnsureDocKeeps(t, next, p, text);
  }

  /** Ensuring a Doc keeps every mapped folder's parent mapped. */
  lemma EnsureDocClosed(t: Tables, next: nat, p: string, text: string)
    requires IsRelative(p) && Closed(t.folders)
    ensures Closed(EnsureDoc(t, next, p, text).tables.folders)
  {
    if p !in t.files && Dirname(p) != "" {
      DirnameOfRelative(p);
      EnsureFolderClosed(t, next, Dirname(p));
    }
  }

  // ---------------------------------------------------------------------
  // The objects: Drive, the mapping file and the `mapping` dictionary
  // ---------------------------------------------------------------------

  /** The Drive service: hands out fresh IDs and records each create request. */
  class DriveService {
    var next: nat
    var created: seq<Request>

    constructor()
      ensures next == 0 && created == []
    {
      next, created := 0, [];
    }

    /** `files().create(body=...).execute()["id"]`. */
    method Create(request: Request) returns (id: string)
      modifies this
      ensures id == DriveId(old(next)) && next == old(next) + 1 && created == old(created) + [request]
    {
      id := DriveId(next);
      next, created := next + 1, created + [request];
    }
  }

  /** The mapping JSON file: the tables it holds, if it exists. */
  class MappingFile {
    var stored: Option<Tables>

    constructor(stored: Option<Tables>)
      ensures this.stored == stored
    {
      this.stored := stored;
    }
  }

  /** The `mapping` dictionary, with its two tables. */
  class Mapping {
    var folders: map<string, string>
    var files: map<string, string>

    /** `mapping = load_mapping()`. */
    constructor Load(file: MappingFile)
      ensures Snapshot() == LoadMapping(file.stored)
    {
      var t := LoadMapping(file.stored);
      folders, files := t.folders, t.files;
    }

    function Snapshot(): Tables
      reads this
    {
      Tables(folders, files)
    }
  }

  /** `save_mapping`: the file now holds the tables as they are. */
  method SaveMapping(mapping: Mapping, file: MappingFile)
    modifies file
    ensures file.stored == Some(mapping.Snapshot())
  {
    file.stored := Some(mapping.Snapshot());
  }

  /**
   * `create_folder_if_not_exists`: the tables, Drive's requests and ID
   * counter and the returned ID are those `EnsureFolder` gives; after any
   * creation the file holds the tables, and with none it is untouched.
   */
  method CreateFolderIfNotExists(drive: DriveService, mapping: Mapping, file: MappingFile, p: string)
    returns (id: string)
    requires IsRelative(p)
    modifies drive, mapping, file
    ensures var o := EnsureFolder(old(mapping.Snapshot()), old(drive.next), p);
      mapping.Snapshot() == o.tables && id == o.id &&
      drive.next == old(drive.next) + |o.requests| && drive.created == old(drive.created) + o.requests &&
      file.stored == if o.requests == [] then old(file.stored) else Some(o.tables)
    decreases |p|
  {
    if p in mapping.folders {
      return mapping.folders[p];
    }
    var parentId := DriveParentFolderId;
    if p != "" {
      var parentLocal := Dirname(p);
      if parentLocal != "" {
        DirnameOfRelative(p);
        parentId := CreateFolderIfNotExists(drive, mapping, file, parentLocal);
      } else {
        parentId := DriveParentFolderId;
      }
    }
    id := drive.Create(CreateFolder(p, parentId));
    mapping.folders := mapping.folders[p := id];
    SaveMapping(mapping, file);
  }

  /** `create_doc_if_not_exists`: as `EnsureDoc` gives, with the file saved after any creation. */
  method CreateDocIfNotExists(drive: DriveService, mapping: Mapping, file: MappingFile, p: string, text: string)
    returns (id: string)
    requires IsRelative(p)
    modifies drive, mapping, file
    ensures var o := EnsureDoc(old(mapping.Snapshot()), old(drive.next), p, text);
      mapping.Snapshot() == o.tables && id == o.id &&
      drive.next == old(drive.next) + |o.requests| && drive.created == old(drive.created) + o.requests &&
      file.stored == if o.requests == [] then old(file.stored) else Some(o.tables)
  {
    if p in mapping.files {
      return mapping.files[p];
    }
    var parentLocalFolder := Dirname(p);
    var folderId := DriveParentFolderId;
    if parentLocalFolder != "" {
      DirnameOfRelative(p);
      folderId := CreateFolderIfNotExists(drive, mapping, file, parentLocalFolder);
    }
    id := drive.Create(CreateDoc(p, folderId, text));
    mapping.files := mapping.files[p := id];
    SaveMapping(mapping, file);
  }

  // ---------------------------------------------------------------------
  // `main`: the walk over the archive
  // ---------------------------------------------------------------------

  /** One directory of `os.walk`: its path relative to the archive (as `relpath` gives it) and its files with their text. */
  datatype WalkEntry = WalkEntry(relativeDir: string, files: seq<(string, string)>)

  /** `relpath` gives `"."` for the archive itself, which `main` turns into `""`. */
  function RelativeDir(rel: string): string {
    if rel == "." then "" else rel
  }

  /** `filename.lower().endswith(".txt")`. */
  predicate IsTxtName(name: string) {
    EndsWith(Lower(name), ".txt")
  }

  /** A name passes the filter exactly when it ends in `.txt` in any mix of cases. */
  lemma IsTxtNameSpec(name: string)
    ensures IsTxtName(name) <==>
      |name| >= 4 && name[|name| - 4] == '.' &&
      (name[|name| - 3] == 't' || name[|name| - 3] == 'T') &&
      (name[|name| - 2] == 'x' || name[|name| - 2] == 'X') &&
      (name[|name| - 1] == 't' || name[|name| - 1] == 'T')
  {
    var l, n := Lower(name), |name|;
    if n >= 4 {
      assert l[n - 4..] == [l[n - 4], l[n - 3], l[n - 2], l[n - 1]];
    }
  }

  /** What `os.walk` and `relpath` guarantee: relative directories and plain file names. */
  predicate WellFormedWalk(walk: seq<WalkEntry>) {
    forall e :: e in walk ==>
      IsRelative(RelativeDir(e.relativeDir)) && forall f :: f in e.files ==> IsName(f.0)
  }

  /** The `.txt` files of one directory, as (local path, text) in walk order. */
  function EntryDocs(dir: string, files: seq<(string, string)>): seq<(string, string)>
  {
    if files == [] then []
    else
      var f := files[|files| - 1];
      EntryDocs(dir, files[..|files| - 1]) + if IsTxtName(f.0) then [(Join(dir, f.0), f.1)] else []
  }

  /** The `.txt` files of the whole walk, in the order `main` uploads them. */
  function WalkDocs(walk: seq<WalkEntry>): seq<(string, string)> {
    if walk == [] then []
    else
      var e := walk[|walk| - 1];
      WalkDocs(walk[..|walk| - 1]) + EntryDocs(RelativeDir(e.relativeDir), e.files)
  }

  /**
   * A directory contributes exactly its `.txt` files, each under the path
   * `join(dir, name)` with its own text.
   */
  lemma {:induction false} EntryDocsSpec(dir: string, files: seq<(string, string)>)
    ensures forall x :: x in EntryDocs(dir, files) <==>
      exists i :: 0 <= i < |files| && IsTxtName(files[i].0) && x == (Join(dir, files[i].0), files[i].1)
  {
    if files != [] {
      var n := |files| - 1;
      var init, f := files[..n], files[n];
      EntryDocsSpec(dir, init);
      var before, docs := EntryDocs(dir, init), EntryDocs(dir, files);
      assert docs == before + if IsTxtName(f.0) then [(Join(dir, f.0), f.1)] else [];
      forall x
        ensures x in docs <==>
          exists i :: 0 <= i < |files| && IsTxtName(files[i].0) && x == (Join(dir, files[i].0), files[i].1)
      {
        if x in before {
          var i :| 0 <= i < |init| && IsTxtName(init[i].0) && x == (Join(dir, init[i].0), init[i].1);
          assert files[i] == init[i];
        }
        if exists i :: 0 <= i < |files| && IsTxtName(files[i].0) && x == (Join(dir, files[i].0), files[i].1) {
          var i :| 0 <= i < |files| && IsTxtName(files[i].0) && x == (Join(dir, files[i].0), files[i].1);
          if i < n {
            assert init[i] == files[i];
          }
        }
      }
    }
  }

  /** A file at the top of the archive is mapped under its bare name. */
  lemma TopLevelPath(name: string)
    requires IsName(name)
    ensures Join(RelativeDir("."), name) == name
    ensures Dirname(name) == ""
  {
    RFindAt(name, '/', -1);
  }

  /** The upload paths of a well-formed walk are relative. */
  lemma {:induction false} WalkDocsRelative(walk: seq<WalkEntry>)
    requires WellFormedWalk(walk)
    ensures forall x :: x in WalkDocs(walk) ==> IsRelative(x.0)
  {
    if walk != [] {
      var init, e := walk[..|walk| - 1], walk[|walk| - 1];
      assert forall x :: x in init ==> x in walk;
      WalkDocsRelative(init);
      var dir := RelativeDir(e.relativeDir);
      EntryDocsSpec(dir, e.files);
      assert e in walk;
      forall x | x in EntryDocs(dir, e.files)
        ensures IsRelative(x.0)
      {
        var i :| 0 <= i < |e.files| && IsTxtName(e.files[i].0) && x == (Join(dir, e.files[i].0), e.files[i].1);
        assert e.files[i] in e.files;
        JoinName(dir, e.files[i].0);
      }
    }
  }

  /** Every path to upload is relative. */
  predicate AllRelative(docs: seq<(string, string)>) {
    forall i :: 0 <= i < |docs| ==> IsRelative(docs[i].0)
  }

  /** The tables and all the create requests after uploading `docs` in order. */
  datatype Progress = Progress(tables: Tables, requests: seq<Request>)

  /** One pass of the loop of `main`: `create_doc_if_not_exists` on the tables the earlier passes left. */
  function UploadStep(done: Progress, next: nat, d: (string, string)): Progress
    requires IsRelative(d.0)
  {
    var o := EnsureDoc(done.tables, next + |done.requests|, d.0, d.1);
    Progress(o.tables, done.requests + o.requests)
  }

  /** The loop of `main` on values: `create_doc_if_not_exists` for each document in turn. */
  function UploadDocs(t: Tables, next: nat, docs: seq<(string, string)>): Progress
    requires AllRelative(docs)
  {
    if docs == [] then Progress(t, [])
    else UploadStep(UploadDocs(t, next, docs[..|docs| - 1]), next, docs[|docs| - 1])
  }

  /** One pass maps its document. */
  lemma UploadStepMaps(done: Progress, next: nat, d: (string, string))
    requires IsRelative(d.0)
    ensures d.0 in UploadStep(done, next, d).tables.files
  {
    EnsureDocMaps(done.tables, next + |done.requests|, d.0, d.1);
  }

  /** One pass keeps every entry of the files table. */
  lemma UploadStepFiles(done: Progress, next: nat, d: (string, string))
    requires IsRelative(d.0)
    ensures forall q :: q in done.tables.files ==>
      q in UploadStep(done, next, d).tables.files && UploadStep(done, next, d).tables.files[q] == done.tables.files[q]
  {
    EnsureDocKeepsFiles(done.tables, next + |done.requests|, d.0, d.1);
  }

  /** One pass keeps every entry of the folders table. */
  lemma UploadStepFolders(done: Progress, next: nat, d: (string, string))
    requires IsRelative(d.0)
    ensures forall q :: q in done.tables.folders ==>
      q in UploadStep(done, next, d).tables.folders && UploadStep(done, next, d).tables.folders[q] == done.tables.folders[q]
  {
    EnsureDocKeepsFolders(done.tables, next + |done.requests|, d.0, d.1);
  }

  /** Uploading maps document `k`: its own pass maps it, and the later passes keep it. */
  lemma {:induction false} UploadDocsMapsAt(t: Tables, next: nat, docs: seq<(string, string)>, k: nat)
    requires AllRelative(docs) && k < |docs|
    ensures docs[k].0 in UploadDocs(t, next, docs).tables.files
  {
    var init, last := docs[..|docs| - 1], docs[|docs| - 1];
    assert UploadDocs(t, next, docs) == UploadStep(UploadDocs(t, next, init), next, last);
    if k < |init| {
      UploadDocsMapsAt(t, next, init, k);
      assert init[k] == docs[k];
      UploadStepFiles(UploadDocs(t, next, init), next, last);
    } else {
      UploadStepMaps(UploadDocs(t, next, init), next, last);
    }
  }

  /** Uploading maps every document. */
  lemma UploadDocsMaps(t: Tables, next: nat, docs: seq<(string, string)>)
    requires AllRelative(docs)
    ensures forall k :: 0 <= k < |docs| ==> docs[k].0 in UploadDocs(t, next, docs).tables.files
  {
    forall k | 0 <= k < |docs|
      ensures docs[k].0 in UploadDocs(t, next, docs).tables.files
    {
      UploadDocsMapsAt(t, next, docs, k);
    }
  }

  /** Uploading keeps every entry of the files table. */
  lemma {:induction false} UploadDocsKeepsFiles(t: Tables, next: nat, docs: seq<(string, string)>)
    requires AllRelative(docs)
    ensures forall q :: q in t.files ==> q in UploadDocs(t, next, docs).tables.files && UploadDocs(t, next, docs).tables.files[q] == t.files[q]
  {
    if docs != [] {
      var init, last := docs[..|docs| - 1], docs[|docs| - 1];
      assert UploadDocs(t, next, docs) == UploadStep(UploadDocs(t, next, init), next, last);
      UploadDocsKeepsFiles(t, next, init);
      UploadStepFiles(UploadDocs(t, next, init), next, last);
    }
  }

  /** Uploading keeps every entry of the folders table. */
  lemma {:induction false} UploadDocsKeepsFolders(t: Tables, next: nat, docs: seq<(string, string)>)
    requires AllRelative(docs)
    ensures forall q :: q in t.folders ==> q in UploadDocs(t, next, docs).tables.folders && UploadDocs(t, next, docs).tables.folders[q] == t.folders[q]
  {
    if docs != [] {
      var init, last := docs[..|docs| - 1], docs[|docs| - 1];
      assert UploadDocs(t, next, docs) == UploadStep(UploadDocs(t, next, init), next, last);
      UploadDocsKeepsFolders(t, next, init);
      UploadStepFolders(UploadDocs(t, next, init), next, last);
    }
  }

  /** Uploading maps every document and keeps every entry of both tables. */
  lemma UploadDocsSpec(t: Tables, next: nat, docs: seq<(string, string)>)
    requires AllRelative(docs)
    ensures forall k :: 0 <= k < |docs| ==> docs[k].0 in UploadDocs(t, next, docs).tables.files
    ensures forall q :: q in t.files ==> q in UploadDocs(t, next, docs).tables.files && UploadDocs(t, next, docs).tables.files[q] == t.files[q]
    ensures forall q :: q in t.folders ==> q in UploadDocs(t, next, docs).tables.folders && UploadDocs(t, next, docs).tables.folders[q] == t.folders[q]
  {
    UploadDocsMaps(t, next, docs);
    UploadDocsKeepsFiles(t, next, docs);
    UploadDocsKeepsFolders(t, next, docs);
  }

  /** Uploading documents already mapped creates nothing: a second run after a complete one changes nothing. */
  lemma {:induction false} UploadDocsAgain(t: Tables, next: nat, docs: seq<(string, string)>)
    requires AllRelative(docs)
    requires forall k :: 0 <= k < |docs| ==> docs[k].0 in t.files
    ensures UploadDocs(t, next, docs) == Progress(t, [])
  {
    if docs != [] {
      UploadDocsAgain(t, next, docs[..|docs| - 1]);
    }
  }

  /** A run keeps every mapped folder's parent mapped. */
  lemma {:induction false} UploadDocsClosed(t: Tables, next: nat, docs: seq<(string, string)>)
    requires AllRelative(docs) && Closed(t.folders)
    ensures Closed(UploadDocs(t, next, docs).tables.folders)
  {
    if docs != [] {
      var init, last := docs[..|docs| - 1], docs[|docs| - 1];
      UploadDocsClosed(t, next, init);
      var done := UploadDocs(t, next, init);
      EnsureDocClosed(done.tables, next + |done.requests|, last.0, last.1);
    }
  }

  /**
   * Tables this program builds are closed: starting without a mapping file,
   * every mapped folder's parent is mapped after any run, so each
   * `create_folder_if_not_exists` of the run meets the hypothesis of
   * `EnsureFolderClosed`.
   */
  lemma FreshMappingClosed(next: nat, docs: seq<(string, string)>)
    requires AllRelative(docs)
    ensures Closed(LoadMapping(None).folders)
    ensures Closed(UploadDocs(LoadMapping(None), next, docs).tables.folders)
  {
    UploadDocsClosed(LoadMapping(None), next, docs);
  }

  /** Uploading one more document ensures it on the tables the earlier ones left. */
  lemma UploadDocsSnoc(t: Tables, next: nat, docs: seq<(string, string)>, d: (string, string))
    requires AllRelative(docs) && IsRelative(d.0)
    ensures AllRelative(docs + [d])
    ensures UploadDocs(t, next, docs + [d]) == UploadStep(UploadDocs(t, next, docs), next, d)
  {
    assert (docs + [d])[..|docs|] == docs;
  }

  /** Concatenation of request logs is associative. */
  lemma ConcatAssoc(a: seq<Request>, b: seq<Request>, c: seq<Request>)
    ensures a + (b + c) == (a + b) + c
  {
  }

  /**
   * The objects are in the state progress `r` describes, from counter
   * `next0`, requests `created0` and file `stored0`: the mapping holds its
   * tables, Drive has made its requests, and the file holds the tables once
   * anything was created.
   */
  ghost predicate Mirrors(drive: DriveService, mapping: Mapping, file: MappingFile,
                          next0: nat, created0: seq<Request>, stored0: Option<Tables>, r: Progress)
    reads drive, mapping, file
  {
    mapping.Snapshot() == r.tables &&
    drive.next == next0 + |r.requests| && drive.created == created0 + r.requests &&
    file.stored == if r.requests == [] then stored0 else Some(r.tables)
  }

  /** One pass of the inner loop of `main`: ensure one `.txt` file as a Doc, advancing the state by `UploadStep`. */
  method UploadFile(drive: DriveService, mapping: Mapping, file: MappingFile,
                    ghost next0: nat, ghost created0: seq<Request>, ghost stored0: Option<Tables>,
                    ghost r: Progress, path: string, text: string)
    requires IsRelative(path) && Mirrors(drive, mapping, file, next0, created0, stored0, r)
    modifies drive, mapping, file
    ensures Mirrors(drive, mapping, file, next0, created0, stored0, UploadStep(r, next0, (path, text)))
  {
    ghost var o := EnsureDoc(mapping.Snapshot(), drive.next, path, text);
    EnsureDocNothing(mapping.Snapshot(), drive.next, path, text);
    var _ := CreateDocIfNotExists(drive, mapping, file, path, text);
    ConcatAssoc(created0, r.requests, o.requests);
    assert UploadStep(r, next0, (path, text)) == Progress(o.tables, r.requests + o.requests);
  }

  /** Concatenation of document lists is associative. */
  lemma DocsAssoc(a: seq<(string, string)>, b: seq<(string, string)>, c: seq<(string, string)>)
    ensures a + (b + c) == (a + b) + c
  {
  }

  /** One more file of a directory adds its document exactly when it passes the filter. */
  lemma EntryDocsStep(dir: string, files: seq<(string, string)>, j: nat)
    requires j < |files|
    ensures EntryDocs(dir, files[..j + 1]) ==
      EntryDocs(dir, files[..j]) + if IsTxtName(files[j].0) then [(Join(dir, files[j].0), files[j].1)] else []
  {
    assert files[..j + 1][..j] == files[..j];
  }

  /**
   * The inner loop of `main` for one directory: each file whose name passes
   * the `.txt` filter is ensured as a Doc under `join(dir, filename)`.
   */
  method UploadEntry(drive: DriveService, mapping: Mapping, file: MappingFile,
                     ghost t0: Tables, ghost next0: nat, ghost created0: seq<Request>, ghost stored0: Option<Tables>,
                     ghost docs: seq<(string, string)>, ghost r: Progress,
                     dir: string, files: seq<(string, string)>)
    returns (ghost docs': seq<(string, string)>, ghost r': Progress)
    requires IsRelative(dir) && forall f :: f in files ==> IsName(f.0)
    requires AllRelative(docs) && r == UploadDocs(t0, next0, docs)
    requires Mirrors(drive, mapping, file, next0, created0, stored0, r)
    modifies drive, mapping, file
    ensures docs' == docs + EntryDocs(dir, files) && AllRelative(docs') && r' == UploadDocs(t0, next0, docs')
    ensures Mirrors(drive, mapping, file, next0, created0, stored0, r')
  {
    docs', r' := docs, r;
    for j := 0 to |files|
      invariant docs' == docs + EntryDocs(dir, files[..j]) && AllRelative(docs')
      invariant r' == UploadDocs(t0, next0, docs')
      invariant Mirrors(drive, mapping, file, next0, created0, stored0, r')
    {
      var filename := files[j].0;
      EntryDocsStep(dir, files, j);
      if IsTxtName(filename) {
        var localFilePath := Join(dir, filename);
        assert files[j] in files;
        JoinName(dir, filename);
        UploadFile(drive, mapping, file, next0, created0, stored0, r', localFilePath, files[j].1);
        UploadDocsSnoc(t0, next0, docs', (localFilePath, files[j].1));
        r' := UploadStep(r', next0, (localFilePath, files[j].1));
        DocsAssoc(docs, EntryDocs(dir, files[..j]), [(localFilePath, files[j].1)]);
        docs' := docs' + [(localFilePath, files[j].1)];
      } else {
        assert docs + EntryDocs(dir, files[..j]) + [] == docs + EntryDocs(dir, files[..j]);
      }
    }
    assert files[..|files|] == files;
  }

  /**
   * `main` after `load_mapping`: for each directory of the walk, with the
   * relative directory `"."` normalised to `""`, the `.txt` files are
   * ensured as Docs. The result is `UploadDocs` of the walk's documents.
   */
  method Upload(drive: DriveService, mapping: Mapping, file: MappingFile, walk: seq<WalkEntry>)
    requires WellFormedWalk(walk)
    modifies drive, mapping, file
    ensures AllRelative(WalkDocs(walk))
    ensures var r := UploadDocs(old(mapping.Snapshot()), old(drive.next), WalkDocs(walk));
      mapping.Snapshot() == r.tables &&
      drive.next == old(drive.next) + |r.requests| && drive.created == old(drive.created) + r.requests &&
      file.stored == if r.requests == [] then old(file.stored) else Some(r.tables)
  {
    ghost var t0, next0 := mapping.Snapshot(), drive.next;
    ghost var created0, stored0 := drive.created, file.stored;
    ghost var docs: seq<(string, string)> := [];
    ghost var r := Progress(t0, []);
    for w := 0 to |walk|
      invariant docs == WalkDocs(walk[..w]) && AllRelative(docs)
      invariant r == UploadDocs(t0, next0, docs)
      invariant Mirrors(drive, mapping, file, next0, created0, stored0, r)
    {
      var relativeDir := walk[w].relativeDir;
      if relativeDir == "." {
        relativeDir := "";
      }
      assert walk[w] in walk;
      assert walk[..w + 1][..w] == walk[..w];
      docs, r := UploadEntry(drive, mapping, file, t0, next0, created0, stored0, docs, r, relativeDir, walk[w].files);
    }
    assert walk[..|walk|] == walk;
  }

  /**
   * `main` once Drive is authorised: load the mapping (empty without a
   * file), then upload the walk's `.txt` files.
   */
  method Run(drive: DriveService, file: MappingFile, walk: seq<WalkEntry>) returns (mapping: Mapping)
    requires WellFormedWalk(walk)
    modifies drive, file
    ensures fresh(mapping) && AllRelative(WalkDocs(walk))
    ensures var r := UploadDocs(LoadMapping(old(file.stored)), old(drive.next), WalkDocs(walk));
      mapping.Snapshot() == r.tables &&
      drive.next == old(drive.next) + |r.requests| && drive.created == old(drive.created) + r.requests &&
      file.stored == if r.requests == [] then old(file.stored) else Some(r.tables)
  {
    mapping := new Mapping.Load(file);
    Upload(drive, mapping, file, walk);
  }
}
