/**
 `DocumentManager.add_document` from add_document.py over an abstract
 filesystem: a map from path strings to file contents. The four gates run in
 `add_document`'s order (source exists, extension allowed, size within the
 ceiling, destination absent) and the first that fails returns false with the
 filesystem untouched; only then is the source copied.
 */
module Documents {
  import opened Text
  import opened Sanitizer
  import opened Paths

  newtype byte = x: int | 0 <= x < 256

  /** Regular files by path; a path is present exactly when `os.path.exists` holds for it. */
  type FileSystem = map<string, seq<byte>>

  /** The extensions `DocumentManager.__init__` allows. */
  const AllowedExtensions: set<string> := {".pdf", ".txt", ".doc", ".docx"}

  /** The size ceiling `DocumentManager.__init__` sets: 10 MiB. */
  const MaxFileSize: nat := 10 * 1024 * 1024

  /** A manager instance: the directory documents are copied into. */
  datatype DocumentManager = DocumentManager(basePath: string)

  /**
   How the copy step ends. The source is opened before the destination, so a
   failure can strike before the destination exists, or after `open(…, 'wb')`
   created it with only `written` bytes of the source in it.
   */
  datatype CopyFault = NoFault | FailBeforeCreate | FailAfterCreate(written: nat)

  /** The boolean `add_document` returns and the filesystem afterwards. */
  datatype AddResult = AddResult(added: bool, fs: FileSystem)

  /** The file name a source is stored under: its sanitized basename. */
  function StoredName(filePath: string): (r: string)
    ensures '/' !in r
    ensures IsSubsequence(r, Basename(filePath))
  {
    SanitizeFilename(Basename(filePath))
  }

  /** Where `add_document` writes the copy of `filePath`: inside the base directory, under the stored name. */
  function Destination(m: DocumentManager, filePath: string): (r: string)
    ensures |m.basePath| <= |r| && r[..|m.basePath|] == m.basePath
    ensures Basename(r) == StoredName(filePath)
  {
    JoinRelativeName(m.basePath, StoredName(filePath));
    SafePathJoin([m.basePath, StoredName(filePath)]).value
  }

  /** `add_document`: true only when the copy was made. */
  function AddDocument(m: DocumentManager, fs: FileSystem, filePath: string, fault: CopyFault): (r: AddResult)
    ensures r.added ==> filePath in fs && Destination(m, filePath) !in fs
    ensures r.added ==> r.fs == fs[Destination(m, filePath) := fs[filePath]]
    ensures forall p :: p != Destination(m, filePath) ==> (p in r.fs <==> p in fs)
    ensures forall p :: p != Destination(m, filePath) && p in fs ==> r.fs[p] == fs[p]
    ensures Destination(m, filePath) in fs ==> r.fs == fs
    ensures Destination(m, filePath) in r.fs && Destination(m, filePath) !in fs ==>
      && filePath in fs
      && var written := r.fs[Destination(m, filePath)];
      && |written| <= |fs[filePath]|
      && written == fs[filePath][..|written|]
  {
    if filePath !in fs then AddResult(false, fs)
    else if !ValidateFileType(filePath, AllowedExtensions) then AddResult(false, fs)
    else if |fs[filePath]| > MaxFileSize then AddResult(false, fs)
    else
      var dest := Destination(m, filePath);
      if dest in fs then AddResult(false, fs)
      else
        CopyInto(fs, fs[filePath], dest, fault)
  }

  /**
   The copy step (the `with open(…)` block and its `except`): it succeeds
   only without an I/O failure, and a failure after the destination was
   created leaves a prefix of the content there.
   */
  function CopyInto(fs: FileSystem, content: seq<byte>, dest: string, fault: CopyFault): (r: AddResult)
    requires dest !in fs
    ensures r.added <==> fault.NoFault?
    ensures r.added ==> r.fs == fs[dest := content]
    ensures forall p :: p != dest ==> (p in r.fs <==> p in fs)
    ensures forall p :: p != dest && p in fs ==> r.fs[p] == fs[p]
    ensures dest in r.fs ==> |r.fs[dest]| <= |content| && r.fs[dest] == content[..|r.fs[dest]|]
  {
    match fault
    case NoFault => AddResult(true, fs[dest := content])
    case FailBeforeCreate => AddResult(false, fs)
    case FailAfterCreate(n) =>
      AddResult(false, fs[dest := content[..if n < |content| then n else |content|]])
  }

  /** All four gates of `add_document` pass. */
  predicate GatesPass(m: DocumentManager, fs: FileSystem, filePath: string) {
    && filePath in fs
    && ValidateFileType(filePath, AllowedExtensions)
    && |fs[filePath]| <= MaxFileSize
    && Destination(m, filePath) !in fs
  }

  /** A missing source is rejected and nothing is written. */
  lemma AddMissingSource(m: DocumentManager, fs: FileSystem, filePath: string, fault: CopyFault)
    requires filePath !in fs
    ensures AddDocument(m, fs, filePath, fault) == AddResult(false, fs)
  {
  }

  /** A source whose extension is not allowed, in any letter case, is rejected and nothing is written. */
  lemma AddDisallowedType(m: DocumentManager, fs: FileSystem, filePath: string, fault: CopyFault)
    requires Lower(Ext(filePath)) !in AllowedExtensions
    ensures AddDocument(m, fs, filePath, fault) == AddResult(false, fs)
  {
  }

  /** A source larger than 10485760 bytes is rejected and nothing is written. */
  lemma AddTooLarge(m: DocumentManager, fs: FileSystem, filePath: string, fault: CopyFault)
    requires filePath in fs
    requires |fs[filePath]| > 10485760
    ensures AddDocument(m, fs, filePath, fault) == AddResult(false, fs)
  {
  }

  /** The size comparison is strict: a source of exactly 10485760 bytes is copied when the other gates pass. */
  lemma AddAtSizeLimit(m: DocumentManager, fs: FileSystem, filePath: string)
    requires filePath in fs && ValidateFileType(filePath, AllowedExtensions)
    requires |fs[filePath]| == 10485760
    requires Destination(m, filePath) !in fs
    ensures AddDocument(m, fs, filePath, NoFault).added
  {
  }

  /** An existing destination is never overwritten: the call fails and the filesystem is unchanged. */
  lemma AddExistingDestination(m: DocumentManager, fs: FileSystem, filePath: string, fault: CopyFault)
    requires Destination(m, filePath) in fs
    ensures !AddDocument(m, fs, filePath, fault).added
    ensures AddDocument(m, fs, filePath, fault).fs[Destination(m, filePath)] == fs[Destination(m, filePath)]
  {
  }

  /** After a copy the destination holds the source's bytes, the source is untouched, and exactly one path is new. */
  lemma AddSuccessEffect(m: DocumentManager, fs: FileSystem, filePath: string, fault: CopyFault)
    requires AddDocument(m, fs, filePath, fault).added
    ensures var fs' := AddDocument(m, fs, filePath, fault).fs;
      && fs'[Destination(m, filePath)] == fs[filePath]
      && filePath in fs' && fs'[filePath] == fs[filePath]
      && fs'.Keys == fs.Keys + {Destination(m, filePath)}
      && Destination(m, filePath) !in fs
  {
  }

  /** Without an I/O failure the call succeeds exactly when all four gates pass. */
  lemma AddSucceedsIffGatesPass(m: DocumentManager, fs: FileSystem, filePath: string)
    ensures AddDocument(m, fs, filePath, NoFault).added <==> GatesPass(m, fs, filePath)
  {
  }

  /** An I/O failure during the copy always yields false; at most a truncated destination is left behind. */
  lemma AddFaultFails(m: DocumentManager, fs: FileSystem, filePath: string, fault: CopyFault)
    requires fault != NoFault
    ensures !AddDocument(m, fs, filePath, fault).added
  {
  }

  /** Adding the same source a second time fails and leaves the first copy in place. */
  lemma AddTwice(m: DocumentManager, fs: FileSystem, filePath: string, fault: CopyFault)
    requires AddDocument(m, fs, filePath, NoFault).added
    ensures var fs1 := AddDocument(m, fs, filePath, NoFault).fs;
      && AddDocument(m, fs1, filePath, fault) == AddResult(false, fs1)
      && fs1[Destination(m, filePath)] == fs[filePath]
  {
  }

  /**
   Whatever the source path, the copy lands directly in the base directory:
   the destination is the base, an optional `/`, and the stored name, which
   holds no `/` and is the destination's last component.
   */
  lemma DestinationInBaseDirectory(m: DocumentManager, filePath: string)
    ensures var name := StoredName(filePath);
      var d := Destination(m, filePath);
      && '/' !in name
      && (d == m.basePath + name || d == m.basePath + "/" + name)
      && Basename(d) == name
  {
    var name := StoredName(filePath);
    JoinRelativeName(m.basePath, name);
  }

  /** The lower-cased extension is an allowed one only if the extension is a dot followed by ASCII letters. */
  lemma AllowedExtensionShape(e: string)
    requires Lower(e) in AllowedExtensions
    ensures |e| >= 4 && e[0] == '.'
    ensures forall i :: 0 < i < |e| ==> 'a' <= e[i] <= 'z' || 'A' <= e[i] <= 'Z'
    ensures AllSafe(e) && !IsSpace(e[|e| - 1])
  {
    var l := Lower(e);
    LowerCharKeepsNonLetters(e[0], '.');
    forall i | 0 <= i < |e|
      ensures IsSafeChar(e[i]) && (i > 0 ==> IsAsciiAlnum(e[i]))
    {
      if i > 0 {
        assert 'a' <= l[i] <= 'z';
      }
    }
  }

  /** The allowed extensions are written in lower case, so comparing lowered extensions against them loses nothing. */
  lemma AllowedExtensionsLowerCase()
    ensures forall e :: e in AllowedExtensions ==> Lower(e) == e
  {
    forall e | e in AllowedExtensions
      ensures Lower(e) == e
    {
      LowerFixedPoints(e);
    }
  }

  /** A source that passes the type gate is stored under a name that keeps its extension. */
  lemma StoredNameKeepsExtension(filePath: string)
    requires ValidateFileType(filePath, AllowedExtensions)
    ensures |Ext(filePath)| >= 4
    ensures EndsWith(StoredName(filePath), Ext(filePath))
  {
    AllowedExtensionShape(Ext(filePath));
    StoredNameKeepsSafeSuffix(filePath);
  }

  /** The stored name ends with any extension made of safe characters that begin and end with non-whitespace. */
  lemma StoredNameKeepsSafeSuffix(filePath: string)
    requires Ext(filePath) != [] && Ext(filePath)[0] == '.'
    requires AllSafe(Ext(filePath)) && !IsSpace(Ext(filePath)[|Ext(filePath)| - 1])
    ensures EndsWith(StoredName(filePath), Ext(filePath))
  {
    ExtWithinBasename(filePath);
    SanitizeKeepsSuffix(Basename(filePath), Ext(filePath));
  }

  /**
   A source that passes the type gate is stored under a plain file name: at
   least four characters, no `/`, so never empty, `.` or `..`.
   */
  lemma StoredNameIsPlain(filePath: string)
    requires ValidateFileType(filePath, AllowedExtensions)
    ensures '/' !in StoredName(filePath)
    ensures |StoredName(filePath)| >= 4
    ensures StoredName(filePath) !in {"", ".", ".."}
  {
    StoredNameKeepsExtension(filePath);
  }

  /**
   The extension survives in the stored name, but `splitext` need not see it
   there: when nothing before the extension survives the filter (a source
   named `$.pdf`, say), the stored name is the bare extension, a hidden name
   whose own extension is empty.
   */
  lemma StoredNameCanLoseExtension(filePath: string)
    requires ValidateFileType(filePath, AllowedExtensions)
    requires forall i :: 0 <= i < |Basename(filePath)| - |Ext(filePath)| ==> !IsSafeChar(Basename(filePath)[i])
    ensures StoredName(filePath) == Ext(filePath)
    ensures !ValidateFileType(StoredName(filePath), AllowedExtensions)
  {
    AllowedExtensionShape(Ext(filePath));
    StoredNameIsExt(filePath, Ext(filePath));
    NoExtRejected(StoredName(filePath));
  }

  /** The type gate rejects every path without an extension. */
  lemma NoExtRejected(p: string)
    requires Ext(p) == []
    ensures !ValidateFileType(p, AllowedExtensions)
  {
    assert Lower(Ext(p)) == [];
  }

  /** The stored name is the extension, which has no extension of its own, when the filter drops all that precedes it. */
  lemma StoredNameIsExt(filePath: string, e: string)
    requires e == Ext(filePath) && e != []
    requires AllSafe(e) && !IsSpace(e[0]) && !IsSpace(e[|e| - 1])
    requires forall i :: 0 <= i < |Basename(filePath)| - |e| ==> !IsSafeChar(Basename(filePath)[i])
    ensures StoredName(filePath) == e
    ensures Ext(StoredName(filePath)) == []
  {
    ExtWithinBasename(filePath);
    SanitizeDropsPrefix(Basename(filePath), e);
    ExtOfExt(filePath);
  }
}
