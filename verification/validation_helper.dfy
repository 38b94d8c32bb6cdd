/** `ValidationHelper` (src/utils/validation_helper.py): checks that either
    return or raise, over an abstract view of the filesystem. None of them
    changes anything, so each is a function from its arguments and the
    filesystem to `Pass` or the exception it raises. */
module ValidationHelper {
  import opened Wrappers
  import opened PyStr
  import opened PyPath

  /** What `os.path` can tell about an existing path. */
  datatype Entry = Entry(isDir: bool, size: nat)

  /** The existing paths, spelled as they are passed to `os.path`. */
  type FileSystem = map<string, Entry>

  /** `os.path.isdir(p)` */
  predicate IsDir(fs: FileSystem, p: string)
  {
    p in fs && fs[p].isDir
  }

  /** A Python argument that may or may not be a `str`. */
  datatype PyValue = Str(s: string) | NotStr

  /** Every existing path stays, with the same kind and size, and more may exist. */
  predicate Extends(fs': FileSystem, fs: FileSystem)
  {
    forall p :: p in fs ==> p in fs' && fs'[p] == fs[p]
  }

  // ---------------------------------------------------------------------------
  // validate_files_exist

  /** `validate_files_exist(file_paths)`: passes exactly when every path exists. */
  function ValidateFilesExist(fs: FileSystem, paths: seq<string>): (r: Outcome<PyError>)
    ensures r == Pass <==> forall j :: 0 <= j < |paths| ==> paths[j] in fs
    ensures r.Fail? ==> r.error.FileNotFoundError?
  {
    if paths == [] then Pass
    else if paths[0] !in fs then Fail(FileNotFoundError("File not found: " + paths[0]))
    else ValidateFilesExist(fs, paths[1..])
  }

  /** A failure names the first missing path in list order. */
  lemma {:induction false} ValidateFilesExistFirstMissing(fs: FileSystem, paths: seq<string>, j: nat)
    requires j < |paths| && paths[j] !in fs
    requires forall l :: 0 <= l < j ==> paths[l] in fs
    ensures ValidateFilesExist(fs, paths) == Fail(FileNotFoundError("File not found: " + paths[j]))
  {
    if j > 0 {
      ValidateFilesExistFirstMissing(fs, paths[1..], j - 1);
    }
  }

  /** Checking a list is checking its two halves, the first half first. */
  lemma {:induction false} ValidateFilesExistAppend(fs: FileSystem, a: seq<string>, b: seq<string>)
    ensures ValidateFilesExist(fs, a + b) ==
      if ValidateFilesExist(fs, a).Fail? then ValidateFilesExist(fs, a) else ValidateFilesExist(fs, b)
  {
    if a == [] {
      assert a + b == b;
    } else {
      assert (a + b)[0] == a[0] && (a + b)[1..] == a[1..] + b;
      ValidateFilesExistAppend(fs, a[1..], b);
    }
  }

  // ---------------------------------------------------------------------------
  // validate_google_doc_id, validate_text_content

  /** `validate_google_doc_id(doc_id)` */
  function ValidateGoogleDocId(docId: PyValue): (r: Outcome<PyError>)
    ensures r.Fail? <==> docId.NotStr? || docId.s == ""
    ensures r.Fail? ==> r.error == ValueError("Invalid Google Doc ID")
  {
    if docId.NotStr? || docId.s == "" then Fail(ValueError("Invalid Google Doc ID")) else Pass
  }

  /** `validate_text_content(text)`: the first test rejects what is not a
      non-empty string, the second what is whitespace only. */
  function ValidateTextContent(text: PyValue): (r: Outcome<PyError>)
    ensures r == Pass <==> text.Str? && !AllSpace(text.s)
    ensures text.NotStr? || text.s == "" ==> r == Fail(ValueError("Invalid text content"))
    ensures text.Str? && text.s != "" && AllSpace(text.s) ==> r == Fail(ValueError("Empty text content"))
  {
    if text.NotStr? || text.s == "" then Fail(ValueError("Invalid text content"))
    else
      StripEmptyIff(text.s);
      if |Strip(text.s)| == 0 then Fail(ValueError("Empty text content")) else Pass
  }

  // ---------------------------------------------------------------------------
  // validate_project_structure, validate_output_structure

  /** The loop shared by both structure checks: each name, joined to `base`,
      must be a directory; the first that is not raises `ValueError(prefix + path)`. */
  function RequireDirs(fs: FileSystem, base: string, names: seq<string>, prefix: string): (r: Outcome<PyError>)
    ensures r == Pass <==> forall j :: 0 <= j < |names| ==> IsDir(fs, PathJoin(base, names[j]))
    ensures r.Fail? ==> r.error.ValueError?
  {
    if names == [] then Pass
    else if !IsDir(fs, PathJoin(base, names[0])) then Fail(ValueError(prefix + PathJoin(base, names[0])))
    else RequireDirs(fs, base, names[1..], prefix)
  }

  /** A failure names the first name, in list order, that is not a directory. */
  lemma {:induction false} RequireDirsFirstMissing(fs: FileSystem, base: string, names: seq<string>, prefix: string, j: nat)
    requires j < |names| && !IsDir(fs, PathJoin(base, names[j]))
    requires forall l :: 0 <= l < j ==> IsDir(fs, PathJoin(base, names[l]))
    ensures RequireDirs(fs, base, names, prefix) == Fail(ValueError(prefix + PathJoin(base, names[j])))
  {
    if j > 0 {
      RequireDirsFirstMissing(fs, base, names[1..], prefix, j - 1);
    }
  }

  const ProjectDirs: seq<string> := ["src", "assets", "output", "logs"]
  const OutputDirs: seq<string> := ["text", "audio", "segments", "final"]

  /** `validate_project_structure(base_dir)` */
  function ValidateProjectStructure(fs: FileSystem, baseDir: string): (r: Outcome<PyError>)
    ensures r == Pass <==>
      IsDir(fs, PathJoin(baseDir, "src")) && IsDir(fs, PathJoin(baseDir, "assets"))
      && IsDir(fs, PathJoin(baseDir, "output")) && IsDir(fs, PathJoin(baseDir, "logs"))
    ensures r.Fail? ==> r.error.ValueError?
  {
    var r := RequireDirs(fs, baseDir, ProjectDirs, "Required directory missing: ");
    assert ProjectDirs[0] == "src" && ProjectDirs[1] == "assets" && ProjectDirs[2] == "output" && ProjectDirs[3] == "logs";
    r
  }

  /** `validate_output_structure(story_dir)` */
  function ValidateOutputStructure(fs: FileSystem, storyDir: string): (r: Outcome<PyError>)
    ensures r == Pass <==>
      IsDir(fs, PathJoin(storyDir, "text")) && IsDir(fs, PathJoin(storyDir, "audio"))
      && IsDir(fs, PathJoin(storyDir, "segments")) && IsDir(fs, PathJoin(storyDir, "final"))
    ensures r.Fail? ==> r.error.ValueError?
  {
    var r := RequireDirs(fs, storyDir, OutputDirs, "Output directory missing: ");
    assert OutputDirs[0] == "text" && OutputDirs[1] == "audio" && OutputDirs[2] == "segments" && OutputDirs[3] == "final";
    r
  }

  /** The project structure is checked in the order `src`, `assets`,
      `output`, `logs`, and a failure names the first missing directory. */
  lemma ValidateProjectStructureFirstMissing(fs: FileSystem, baseDir: string, j: nat)
    requires j < 4 && !IsDir(fs, PathJoin(baseDir, ProjectDirs[j]))
    requires forall l :: 0 <= l < j ==> IsDir(fs, PathJoin(baseDir, ProjectDirs[l]))
    ensures ValidateProjectStructure(fs, baseDir)
         == Fail(ValueError("Required directory missing: " + PathJoin(baseDir, ProjectDirs[j])))
  {
    RequireDirsFirstMissing(fs, baseDir, ProjectDirs, "Required directory missing: ", j);
  }

  /** The output structure is checked in the order `text`, `audio`,
      `segments`, `final`, and a failure names the first missing directory. */
  lemma ValidateOutputStructureFirstMissing(fs: FileSystem, storyDir: string, j: nat)
    requires j < 4 && !IsDir(fs, PathJoin(storyDir, OutputDirs[j]))
    requires forall l :: 0 <= l < j ==> IsDir(fs, PathJoin(storyDir, OutputDirs[l]))
    ensures ValidateOutputStructure(fs, storyDir)
         == Fail(ValueError("Output directory missing: " + PathJoin(storyDir, OutputDirs[j])))
  {
    RequireDirsFirstMissing(fs, storyDir, OutputDirs, "Output directory missing: ", j);
  }

  /** A directory check that passes keeps passing when more paths exist. */
  lemma {:induction false} RequireDirsMonotone(fs: FileSystem, fs': FileSystem, base: string, names: seq<string>, prefix: string)
    requires Extends(fs', fs) && RequireDirs(fs, base, names, prefix) == Pass
    ensures RequireDirs(fs', base, names, prefix) == Pass
  {
    forall j | 0 <= j < |names| ensures IsDir(fs', PathJoin(base, names[j])) {
      assert IsDir(fs, PathJoin(base, names[j]));
    }
  }

  // ---------------------------------------------------------------------------
  // validate_video_output

  /** `validate_video_output(video_path)`: existence is checked before size. */
  function ValidateVideoOutput(fs: FileSystem, videoPath: string): (r: Outcome<PyError>)
    ensures r == Pass <==> videoPath in fs && fs[videoPath].size > 0
    ensures videoPath !in fs ==> r == Fail(FileNotFoundError("Video file not found: " + videoPath))
    ensures videoPath in fs && fs[videoPath].size == 0 ==> r == Fail(ValueError("Video file is empty: " + videoPath))
  {
    if videoPath !in fs then Fail(FileNotFoundError("Video file not found: " + videoPath))
    else if fs[videoPath].size == 0 then Fail(ValueError("Video file is empty: " + videoPath))
    else Pass
  }
}
