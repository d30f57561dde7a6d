/**
 The per-file decisions of `process_directory` in file_organizer.py
 (lines 49-121), with every filesystem call turned into an input:
 whether the entry is a directory, whether `os.rename` succeeded, whether
 `os.makedirs` succeeded and how `shutil.move` ended.
 */
module Organizer {
  import opened Text
  import opened Normalizer
  import opened Paths
  import opened Categorizer

  datatype Option<T> = None | Some(value: T)

  // ---------------------------------------------------------------------
  // The new name (lines 67-71)
  // ---------------------------------------------------------------------

  /** `new_filename`: the normalized stem followed by the extension exactly
      as it was, case included. */
  function NewName(filename: string): string {
    var parts := SplitExt(filename);
    Standardize(parts.stem) + parts.ext
  }

  /** The new name is a normalized stem (a fixed point of `Standardize`)
      followed by the original extension. */
  lemma NewNameShape(filename: string)
    ensures var r := NewName(filename); var ext := SplitExt(filename).ext;
      && |ext| <= |r| && r[|r| - |ext|..] == ext
      && Standardize(r[..|r| - |ext|]) == r[..|r| - |ext|]
  {
    var parts := SplitExt(filename);
    var std := Standardize(parts.stem);
    StandardizeIdempotent(parts.stem);
    assert (std + parts.ext)[..|std|] == std;
  }

  /** A file keeps its name exactly when its stem is already normalized. */
  lemma NewNameUnchangedIff(filename: string)
    ensures NewName(filename) == filename <==> Standardize(SplitExt(filename).stem) == SplitExt(filename).stem
  {
    var p := SplitExt(filename);
    var std := Standardize(p.stem);
    SplitExtParts(filename);
    if NewName(filename) == filename {
      assert std + p.ext == p.stem + p.ext;
      assert |std| == |p.stem|;
      assert std == (std + p.ext)[..|std|] == (p.stem + p.ext)[..|p.stem|] == p.stem;
    }
  }

  lemma LowerKeepsSlashFree(s: string)
    requires '/' !in s
    ensures '/' !in Lower(s)
  {
    forall i | 0 <= i < |s| ensures Lower(s)[i] != '/' {
      assert s[i] != '/';
    }
  }

  /** Splitting the new name of an entry gives back the normalized stem and
      the original extension, unless the stem normalized to nothing, in
      which case a non-empty extension makes the new name a hidden one. */
  lemma SplitNewName(filename: string)
    requires IsEntryName(filename)
    ensures IsEntryName(NewName(filename))
    ensures var p := SplitExt(filename); var std := Standardize(p.stem);
      && (std != [] ==> SplitExt(NewName(filename)) == Parts(std, p.ext))
      && (std == [] && p.ext != [] ==> IsHidden(NewName(filename)))
      && (std == [] && p.ext == [] ==> NewName(filename) == [])
  {
    var p := SplitExt(filename);
    var std := Standardize(p.stem);
    SplitExtParts(filename);
    StandardizeShape(p.stem);
    NewNameShape(filename);
    assert forall c :: c in p.stem ==> c in filename;
    LowerKeepsSlashFree(p.stem);
    assert '/' !in std;
    assert forall c :: c in p.ext ==> c in filename;
    assert '/' !in NewName(filename);
    if std != [] {
      assert '.' !in std;
      SplitExtOfJoin(std, p.ext);
    }
  }

  /** Whether the new name is hidden depends only on what normalization did
      to the stem: an entry that is not hidden becomes hidden exactly when
      its stem normalizes to nothing and it has an extension. */
  lemma NewNameHiddenIff(filename: string)
    requires IsEntryName(filename)
    ensures IsHidden(NewName(filename)) <==> Standardize(SplitExt(filename).stem) == [] && SplitExt(filename).ext != []
  {
    var p := SplitExt(filename);
    var std := Standardize(p.stem);
    SplitNewName(filename);
    StandardizeShape(p.stem);
    if std != [] {
      assert NewName(filename)[0] == std[0] != '.';
    }
  }

  /** Renaming is stable: the new name of a new name is itself, unless the
      first rename produced a hidden name (which the walk then skips). */
  lemma NewNameStable(filename: string)
    requires IsEntryName(filename)
    ensures !IsHidden(NewName(filename)) ==> NewName(NewName(filename)) == NewName(filename)
    ensures !IsHidden(NewName(filename)) ==> SplitExt(NewName(filename)).ext == SplitExt(filename).ext
  {
    var p := SplitExt(filename);
    var std := Standardize(p.stem);
    var n := NewName(filename);
    assert n == std + p.ext;
    SplitNewName(filename);
    NewNameHiddenIff(filename);
    if !IsHidden(n) {
      if std != [] {
        assert SplitExt(n) == Parts(std, p.ext);
        StandardizeIdempotent(p.stem);
        assert NewName(n) == Standardize(std) + p.ext;
      } else {
        assert n == [];
        assert SplitExt([]) == Parts([], []);
        assert Standardize([]) == [];
      }
    }
  }

  /** The new name from the two halves of `splitext`. */
  lemma NewNameVia(filename: string, stem: string, ext: string, std: string)
    requires SplitExt(filename) == Parts(stem, ext) && Standardize(stem) == std
    ensures NewName(filename) == std + ext
  {
  }

  /** Only the stem is normalized; the extension keeps its case. */
  lemma NewNameExample(photo: string)
    requires photo == "My Photo.JPG"
    ensures NewName(photo) == "my_photo.JPG"
  {
    var stem, ext := photo[..8], photo[8..];
    SplitMyPhoto(photo, stem, ext);
    StandardizeMyPhoto(stem);
    NewNameVia(photo, stem, ext, "my_photo");
  }

  lemma SplitMyPhoto(photo: string, stem: string, ext: string)
    requires photo == "My Photo.JPG" && stem == photo[..8] && ext == photo[8..]
    ensures SplitExt(photo) == Parts(stem, ext)
  {
    assert stem == "My Photo" && ext == ".JPG";
    assert photo == stem + ext;
    SplitExtOfJoin(stem, ext);
  }

  lemma StandardizeMyPhoto(s: string)
    requires s == "My Photo"
    ensures Standardize(s) == "my_photo"
  {
    LowerMyPhoto(s);
    SepFreeWord("my");
    SepFreeWord("photo");
    CollapseTwoWords("my", " ", "photo");
    StandardizeVia(s, "my_photo");
  }

  lemma LowerMyPhoto(s: string)
    requires s == "My Photo"
    ensures Lower(s) == "my" + (" " + "photo")
  {
  }

  /** A name that is already normalized is left alone. */
  lemma NewNameKeepsNormalName()
    ensures NewName("notes.txt") == "notes.txt"
  {
    var notes := "notes.txt";
    assert notes == "notes" + ".txt";
    SplitExtOfJoin("notes", ".txt");
    SepFreeWord("notes");
    assert Lower("notes") == "notes";
    CollapseKeepsSepFree("notes");
    StandardizeVia("notes", "notes");
  }

  /** A stem made only of separators leaves nothing but the extension, so
      the renamed file becomes a hidden file. */
  lemma SeparatorStemBecomesHidden()
    ensures NewName("-.txt") == ".txt"
    ensures IsHidden(NewName("-.txt"))
  {
    var filename := "-.txt";
    SplitExtOfJoin("-", ".txt");
    assert filename == "-" + ".txt";
    StandardizeEmptyIff("-");
  }

  // ---------------------------------------------------------------------
  // The per-file plan (lines 58-116)
  // ---------------------------------------------------------------------

  /** What the organize step decides for one file. */
  datatype OrganizeStep = OrganizeStep(category: string, targetDir: string, destination: string, move: bool)

  /** What `process_directory` decides for one entry of `os.walk`. */
  datatype Plan =
    | Skip
    | Process(newName: string, renameTo: Option<string>, name: string, path: string, organize: Option<OrganizeStep>)

  /** The organize step for a file now called `name` whose extension
      falls in `category` (lines 104-121). */
  function OrganizeFor(root: string, folder: string, category: string, name: string): OrganizeStep {
    var targetDir := Join(root, category);
    OrganizeStep(category, targetDir, Join(targetDir, name), folder != targetDir)
  }

  /** The decisions for `filename` once its new name and its category are
      known: skip directories and hidden files, rename only when the name
      changes, and carry the new name on only when the rename succeeded. */
  function PlanWith(root: string, folder: string, filename: string, newName: string, category: string,
                    isDir: bool, organize: bool, renameOk: bool): Plan
  {
    if isDir || IsHidden(filename) then Skip
    else
      var attempted := filename != newName;
      var name := if attempted && renameOk then newName else filename;
      var step := if organize then Some(OrganizeFor(root, folder, category, name)) else None;
      Process(newName, if attempted then Some(Join(folder, newName)) else None, name, Join(folder, name), step)
  }

  /** The decisions for `filename` in `folder`, given whether the entry is a
      directory and whether the rename (if one is attempted) succeeds. */
  function PlanFile(root: string, folder: string, filename: string, isDir: bool, organize: bool, renameOk: bool): (p: Plan)
    ensures p.Skip? <==> isDir || IsHidden(filename)
    ensures p.Process? ==> p.newName == NewName(filename)
    ensures p.Process? ==> (p.renameTo.Some? <==> NewName(filename) != filename)
    ensures p.Process? && p.renameTo.Some? ==> p.renameTo.value == Join(folder, NewName(filename))
    ensures p.Process? && renameOk ==> p.name == NewName(filename)
    ensures p.Process? && !renameOk ==> p.name == filename
    ensures p.Process? ==> p.path == Join(folder, p.name)
    ensures p.Process? ==> (p.organize.Some? <==> organize)
    ensures p.Process? && organize ==>
      var step := p.organize.value;
      && step.category == Category(SplitExt(filename).ext)
      && step.targetDir == Join(root, step.category)
      && step.destination == Join(step.targetDir, p.name)
      && (step.move <==> folder != step.targetDir)
  {
    PlanWith(root, folder, filename, NewName(filename), Category(SplitExt(filename).ext), isDir, organize, renameOk)
  }

  /** A file whose name is already normalized and which already sits in
      its category folder is neither renamed nor moved. */
  lemma PlanFixedPoint(root: string, folder: string, filename: string, organize: bool, renameOk: bool)
    requires !IsHidden(filename)
    requires Standardize(SplitExt(filename).stem) == SplitExt(filename).stem
    requires folder == Join(root, Category(SplitExt(filename).ext))
    ensures var p := PlanFile(root, folder, filename, false, organize, renameOk);
      && p.Process? && p.renameTo.None? && p.name == filename
      && (p.organize.None? || !p.organize.value.move)
  {
    NewNameUnchangedIff(filename);
  }

  /** `.DS_Store` is skipped in any mode, so it is neither renamed nor
      moved. */
  lemma HiddenFileSkipped(root: string, folder: string, organize: bool, renameOk: bool)
    ensures PlanFile(root, folder, ".DS_Store", false, organize, renameOk) == Skip
  {
  }

  // ---------------------------------------------------------------------
  // Effects and outcomes (lines 76-83, 109, 117-121)
  // ---------------------------------------------------------------------

  /** How `shutil.move` ends: it moves the file, raises `shutil.Error`
      (caught and reported), or raises any other `OSError` (not caught). */
  datatype MoveResult = Moved | MoveRefused | MoveCrashed

  /** The filesystem's answers for one entry. */
  datatype Effects = Effects(isDir: bool, renameOk: bool, makedirsOk: bool, move: MoveResult)

  /** Where the file is after its step, or an exception that ends the walk. */
  datatype Outcome = Done(folder: string, name: string) | Raised

  /** Carries out a plan against the given effects. */
  function Resolve(p: Plan, folder: string, filename: string, fx: Effects): Outcome {
    match p
    case Skip => Done(folder, filename)
    case Process(_, _, name, _, step) =>
      if step.None? then Done(folder, name)
      else if !fx.makedirsOk then Raised
      else if !step.value.move then Done(folder, name)
      else
        match fx.move
        case Moved => Done(step.value.targetDir, name)
        case MoveRefused => Done(folder, name)
        case MoveCrashed => Raised
  }

  /** The step of one entry of the walk. */
  function Apply(root: string, folder: string, filename: string, organize: bool, fx: Effects): Outcome {
    Resolve(PlanFile(root, folder, filename, fx.isDir, organize, fx.renameOk), folder, filename, fx)
  }

  /** What a step does, for any new name and category. */
  lemma ResolvePlanWith(root: string, folder: string, filename: string, newName: string, category: string,
                        organize: bool, fx: Effects)
    ensures var o := Resolve(PlanWith(root, folder, filename, newName, category, fx.isDir, organize, fx.renameOk), folder, filename, fx);
      && (fx.isDir || IsHidden(filename) ==> o == Done(folder, filename))
      && (o.Raised? <==> (organize && !fx.isDir && !IsHidden(filename)
           && (!fx.makedirsOk || (fx.move == MoveCrashed && folder != Join(root, category)))))
      && (o.Done? ==> o.name == filename || o.name == newName)
      && (o.Done? && !fx.isDir && !IsHidden(filename) ==> (o.name == newName <==> fx.renameOk || newName == filename))
      && (o.Done? && o.folder != folder ==> organize && o.folder == Join(root, category))
      && (o.Done? && organize && !fx.isDir && !IsHidden(filename) ==>
           o.folder == (if folder != Join(root, category) && fx.move == Moved then Join(root, category) else folder))
      && (!organize ==> o.Done? && o.folder == folder)
  {
  }

  /** What one step can do: directories and hidden files stay as they are;
      the walk ends exactly when organizing and `os.makedirs` fails, or a
      needed move fails with an error other than `shutil.Error`; the file
      ends under its original or its new name (the new one exactly when the
      rename succeeded or was not needed); and when organizing it ends in
      its category folder under the root if a needed move went through, and
      in its own folder otherwise. */
  lemma ApplyContract(root: string, folder: string, filename: string, organize: bool, fx: Effects)
    ensures var o := Apply(root, folder, filename, organize, fx);
      var target := Join(root, Category(SplitExt(filename).ext));
      && (fx.isDir || IsHidden(filename) ==> o == Done(folder, filename))
      && (o.Raised? <==> (organize && !fx.isDir && !IsHidden(filename)
           && (!fx.makedirsOk || (fx.move == MoveCrashed && folder != target))))
      && (o.Done? ==> o.name == filename || o.name == NewName(filename))
      && (o.Done? && !fx.isDir && !IsHidden(filename) ==>
           (o.name == NewName(filename) <==> fx.renameOk || NewName(filename) == filename))
      && (o.Done? && o.folder != folder ==> organize && o.folder == target)
      && (o.Done? && organize && !fx.isDir && !IsHidden(filename) ==>
           o.folder == (if folder != target && fx.move == Moved then target else folder))
      && (!organize ==> o.Done? && o.folder == folder)
  {
    ResolvePlanWith(root, folder, filename, NewName(filename), Category(SplitExt(filename).ext), organize, fx);
  }

  /** The effects under which the step of an entry cannot raise. */
  predicate Harmless(fx: Effects) {
    fx.makedirsOk && fx.move != MoveCrashed
  }

  /** Only the organize step raises, and only under harmful effects. */
  lemma ApplyRaisesOnly(root: string, folder: string, filename: string, organize: bool, fx: Effects)
    ensures Apply(root, folder, filename, organize, fx).Raised? ==> organize && !Harmless(fx)
  {
    ApplyContract(root, folder, filename, organize, fx);
  }

  /** One entry of the walk: the folder `os.walk` reports and a name listed
      in it, with the filesystem's answers for that entry. */
  datatype Entry = Entry(folder: string, filename: string, fx: Effects)

  /** The walk itself, whatever each step does: the steps run in order and
      the walk stops right after the first step that raises. */
  method Walk<E>(entries: seq<E>, step: E -> Outcome) returns (outcomes: seq<Outcome>)
    ensures |outcomes| <= |entries|
    ensures forall i :: 0 <= i < |outcomes| ==> outcomes[i] == step(entries[i])
    ensures forall i :: 0 <= i < |outcomes| - 1 ==> outcomes[i].Done?
    ensures |outcomes| < |entries| ==> outcomes != [] && outcomes[|outcomes| - 1].Raised?
    ensures (forall i :: 0 <= i < |entries| ==> step(entries[i]).Done?) ==> |outcomes| == |entries|
  {
    outcomes := [];
    var i := 0;
    while i < |entries|
      invariant 0 <= i <= |entries|
      invariant |outcomes| == i
      invariant forall k :: 0 <= k < i ==> outcomes[k] == step(entries[k])
      invariant forall k :: 0 <= k < i ==> outcomes[k].Done?
    {
      var o := step(entries[i]);
      outcomes := outcomes + [o];
      if o.Raised? {
        return;
      }
      i := i + 1;
    }
  }

  /** `process_directory`: the entries are processed in walk order, each on
      its own; a failed rename or a refused move is reported and the walk
      goes on, while any other exception from the organize step ends it. */
  method ProcessDirectory(root: string, entries: seq<Entry>, organize: bool) returns (outcomes: seq<Outcome>)
    ensures |outcomes| <= |entries|
    ensures forall i :: 0 <= i < |outcomes| ==>
      outcomes[i] == Apply(root, entries[i].folder, entries[i].filename, organize, entries[i].fx)
    ensures forall i :: 0 <= i < |outcomes| - 1 ==> outcomes[i].Done?
    ensures |outcomes| < |entries| ==> outcomes != [] && outcomes[|outcomes| - 1].Raised?
    ensures !organize ==> |outcomes| == |entries|
    ensures (forall i :: 0 <= i < |entries| ==> Harmless(entries[i].fx)) ==> |outcomes| == |entries|
  {
    var step := (e: Entry) => Apply(root, e.folder, e.filename, organize, e.fx);
    outcomes := Walk(entries, step);
    if |outcomes| < |entries| {
      var e := entries[|outcomes| - 1];
      ApplyRaisesOnly(root, e.folder, e.filename, organize, e.fx);
    }
  }

  // ---------------------------------------------------------------------
  // Running twice
  // ---------------------------------------------------------------------

  /** When every effect of the first run succeeds, a second run finds the
      file where the first left it and leaves it there: nothing is renamed
      and nothing is moved. The second run may organize only if the first
      did, and the entry is a directory in both runs or in neither. */
  lemma SecondPassIsQuiet(root: string, folder: string, filename: string, organize1: bool, fx: Effects,
                          organize2: bool, fx2: Effects)
    requires IsEntryName(filename)
    requires fx.renameOk && fx.makedirsOk && fx.move == Moved
    requires fx2.isDir == fx.isDir
    requires organize2 ==> organize1
    ensures Apply(root, folder, filename, organize1, fx).Done?
    ensures var o := Apply(root, folder, filename, organize1, fx);
      var p := PlanFile(root, o.folder, o.name, fx2.isDir, organize2, fx2.renameOk);
      p.Skip? || (p.renameTo.None? && (p.organize.None? || !p.organize.value.move))
    ensures var o := Apply(root, folder, filename, organize1, fx);
      (fx2.makedirsOk || !organize2) ==> Apply(root, o.folder, o.name, organize2, fx2) == o
  {
    var o := Apply(root, folder, filename, organize1, fx);
    if !fx.isDir && !IsHidden(filename) {
      var name := NewName(filename);
      assert o.name == name;
      NewNameStable(filename);
      if !IsHidden(name) {
        var ext := SplitExt(filename).ext;
        assert SplitExt(name).ext == ext;
        NewNameUnchangedIff(name);
        assert organize1 ==> o.folder == Join(root, Category(ext));
      }
    }
  }
}
