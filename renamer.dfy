/** The per-entry work of the renamer: deciding whether a visited entry is an
    audio file to move, and computing where it goes. */
module Renamer {
  import opened Foreign
  import opened Sanitizer
  import opened Rules
  import opened RuleLoader
  import opened Paths
  import opened FileNames

  /** The fields the tag decoder reports (a missing number reads as 0). */
  datatype Tags = Tags(title: string, album: string, track: int, disc: int)

  /** Where a file goes: the file `name` inside the directory `show` inside
      the destination directory `dest`. */
  datatype Destination = Destination(dest: string, show: string, name: string)

  datatype RenameOutcome = Target(to: Destination) | RulePanic(index: nat)

  /** The destination of the file at `path` with tags `tags`: the title and
      the album each go through the rules and then the sanitizer; the album
      names the directory, the title, disc and track the file. */
  function RenameTarget(eng: RegexEngine, uc: UnicodeTables, dest: string,
                        rules: seq<RenameRule>, path: string, tags: Tags): RenameOutcome
  {
    match Applied(eng, rules, tags.title)
    case Panicked(i) => RulePanic(i)
    case Returned(t) =>
      match Applied(eng, rules, tags.album)
      case Panicked(i) => RulePanic(i)
      case Returned(a) =>
        var title := Sanitized(uc, t);
        var show := Sanitized(uc, a);
        Target(Destination(dest, show, FileName(tags.disc, tags.track, title, Ext(path))))
  }

  /** Computing a destination panics exactly when some rule is uncompiled. */
  lemma RenameTargetPanicsIff(eng: RegexEngine, uc: UnicodeTables, dest: string,
                              rules: seq<RenameRule>, path: string, tags: Tags)
    ensures RenameTarget(eng, uc, dest, rules, path, tags).RulePanic? <==> !AllCompiled(rules)
  {
  }

  /** The file lands directly inside `dest/show`: neither the show directory
      nor the file name holds a separator or can be "." or "..". */
  lemma RenameTargetStaysInShow(eng: RegexEngine, uc: UnicodeTables, dest: string,
                                rules: seq<RenameRule>, path: string, tags: Tags)
    requires uc.WellFormed()
    ensures var r := RenameTarget(eng, uc, dest, rules, path, tags);
      r.Target? ==>
        && r.to.dest == dest
        && '/' !in r.to.show && r.to.show != "." && r.to.show != ".."
        && '/' !in r.to.name && r.to.name != "." && r.to.name != ".."
  {
    var r := RenameTarget(eng, uc, dest, rules, path, tags);
    if r.Target? {
      var t := Fold(eng, rules, tags.title);
      var a := Fold(eng, rules, tags.album);
      NoSeparatorOrDot(uc, t);
      NoSeparatorOrDot(uc, a);
      FileNameNoSlash(tags.disc, tags.track, Sanitized(uc, t), Ext(path));
      assert r.to.show == Sanitized(uc, a);
      assert r.to.name == FileName(tags.disc, tags.track, Sanitized(uc, t), Ext(path));
      assert "."[0] == '.' && ".."[0] == '.';
    }
  }

  /** The file name reads back as the disc, the track, the processed title
      and the source file's extension. */
  lemma RenameTargetNameRoundTrip(eng: RegexEngine, uc: UnicodeTables, dest: string,
                                  rules: seq<RenameRule>, path: string, tags: Tags)
    requires uc.WellFormed() && AllCompiled(rules)
    requires tags.disc >= 0 && tags.track >= 0
    ensures var r := RenameTarget(eng, uc, dest, rules, path, tags);
      r.Target? && ParseFileName(r.to.name) ==
        Some(NameParts(tags.disc, tags.track, Sanitized(uc, Fold(eng, rules, tags.title)), Ext(path)))
  {
    NoSeparatorOrDot(uc, Fold(eng, rules, tags.title));
    FileNameRoundTrip(tags.disc, tags.track, Sanitized(uc, Fold(eng, rules, tags.title)), Ext(path));
  }

  /** A worked example: track 3 of disc 1, "The Beginning" from "My Show",
      with no rules. */
  lemma RenameTargetExample(eng: RegexEngine, uc: UnicodeTables, dest: string)
    requires uc.WellFormed()
    ensures RenameTarget(eng, uc, dest, [], "in/ep.m4a", Tags("The Beginning", "My Show", 3, 1))
      == Target(Destination(dest, "My Show", "s01 e03 The Beginning.m4a"))
  {
    AsciiSafe(uc, "The Beginning");
    AsciiSafe(uc, "My Show");
    ExtOfEnding("in/ep", ".m4a");
    assert "in/ep" + ".m4a" == "in/ep.m4a";
    FileNameExample();
  }

  /** What the walk hands the renamer for one entry: its path, whether it is
      a directory, and whether the walk itself failed there. */
  datatype WalkEntry = WalkEntry(path: string, isDir: bool, walkFailed: bool)

  datatype EntryAction = PassError | Skip | Process

  /** The file names left behind by macOS that are never touched. */
  predicate IsArtifact(name: string)
  {
    name == ".DS_Store" || name == "Icon\r"
  }

  /** The filter applied to every visited entry. */
  function Classify(e: WalkEntry): EntryAction
  {
    if e.walkFailed then PassError
    else if e.isDir then Skip
    else if IsArtifact(Base(e.path)) then Skip
    else
      var ext := Ext(e.path);
      if !EqualFold(ext, ".m4a") && !EqualFold(ext, ".mp4") then Skip
      else Process
  }

  /** An entry is processed exactly when the walk succeeded there, it is not a
      directory and its extension, lower-cased, is ".m4a" or ".mp4". The
      artifact-name test never decides the outcome on its own: neither name
      has such an extension. */
  lemma ClassifyProcessIff(e: WalkEntry)
    ensures Classify(e) == Process <==>
      !e.walkFailed && !e.isDir && IsAudioExt(Ext(e.path))
  {
    AudioExtFold(Ext(e.path));
    if IsArtifact(Base(e.path)) {
      ArtifactIsNotAudio(e.path);
    }
  }

  /** The case-insensitive test against the two extensions. */
  lemma AudioExtFold(ext: string)
    ensures EqualFold(ext, ".m4a") || EqualFold(ext, ".mp4") <==> IsAudioExt(ext)
  {
    EqualFoldLower(ext, ".m4a");
    EqualFoldLower(ext, ".mp4");
    assert Lower(".m4a") == ".m4a" && Lower(".mp4") == ".mp4";
  }

  /** The two extensions the renamer accepts, in any case. */
  predicate IsAudioExt(ext: string)
  {
    Lower(ext) == ".m4a" || Lower(ext) == ".mp4"
  }

  /** Neither ".DS_Store" nor "Icon\r" has an audio extension. */
  lemma ArtifactIsNotAudio(p: string)
    requires IsArtifact(Base(p))
    ensures !IsAudioExt(Ext(p))
  {
    var ext := Ext(p);
    if ext != [] {
      ExtSuffixOfBase(p);
      DottedSuffixOfArtifact(Base(p), ext);
    }
  }

  lemma DottedSuffixOfArtifact(b: string, ext: string)
    requires IsArtifact(b) && IsSuffix(ext, b)
    requires ext != [] && ext[0] == '.'
    ensures |ext| == 9
  {
    var m := |b| - |ext|;
    assert b[m] == '.';
    if b == ".DS_Store" {
      assert forall i :: 0 < i < 9 ==> ".DS_Store"[i] != '.';
    }
  }

  /** A picture anywhere in a source tree is never renamed. */
  lemma ClassifySkipsPicture(dir: string)
    ensures Classify(WalkEntry(dir + "/cover.jpg", false, false)) == Skip
  {
    var e := WalkEntry(dir + "/cover.jpg", false, false);
    assert e.path == (dir + "/cover") + ".jpg";
    ExtOfEnding(dir + "/cover", ".jpg");
    assert !IsAudioExt(".jpg") by { assert Lower(".jpg")[1] == 'j'; }
    ClassifyProcessIff(e);
    ClassifyWithoutWalkError(e);
  }

  /** Without a walk error an entry is either processed or skipped. */
  lemma ClassifyWithoutWalkError(e: WalkEntry)
    requires !e.walkFailed
    ensures Classify(e) == Process || Classify(e) == Skip
  {
  }

  /** The full treatment of one entry; `tags` is None when the file could not
      be opened or its tags could not be decoded. */
  datatype EntryOutcome =
    | WalkError
    | Skipped
    | TagsUnreadable
    | Panic(index: nat)
    | Move(to: Destination)

  function HandleEntry(eng: RegexEngine, uc: UnicodeTables, dest: string,
                       rules: seq<RenameRule>, e: WalkEntry, tags: Option<Tags>): EntryOutcome
  {
    match Classify(e)
    case PassError => WalkError
    case Skip => Skipped
    case Process =>
      match tags
      case None => TagsUnreadable
      case Some(t) =>
        match RenameTarget(eng, uc, dest, rules, e.path, t)
        case RulePanic(i) => Panic(i)
        case Target(d) => Move(d)
  }

  /** With rules as the loader returns them, no entry ever panics, and only
      audio files are moved, each directly into a show directory under the
      destination. */
  lemma HandleEntryWithLoadedRules(eng: RegexEngine, uc: UnicodeTables, dest: string,
                                   src: RuleSource, e: WalkEntry, tags: Option<Tags>)
    requires uc.WellFormed()
    ensures var o := HandleEntry(eng, uc, dest, Loaded(eng, src).rules, e, tags);
      && !o.Panic?
      && (o.Move? ==>
        && !e.isDir && IsAudioExt(Ext(e.path))
        && o.to.dest == dest && '/' !in o.to.show && '/' !in o.to.name)
  {
    var rules := Loaded(eng, src).rules;
    LoadedOutcomes(eng, src);
    ClassifyProcessIff(e);
    if tags.Some? {
      RenameTargetStaysInShow(eng, uc, dest, rules, e.path, tags.value);
    }
  }

  /** As written, the loader's answer to a type mismatch makes the first
      audio file with readable tags panic. */
  lemma AsWrittenHandleEntryPanics(eng: RegexEngine, uc: UnicodeTables, dest: string, t: Tags)
    ensures var rules := LoadedAsWritten(eng, FileRead(TypeMismatch([RuleText("", "x")]))).rules;
      HandleEntry(eng, uc, dest, rules, WalkEntry("in/ep.m4a", false, false), Some(t)) == Panic(0)
  {
    var e := WalkEntry("in/ep.m4a", false, false);
    ExtOfEnding("in/ep", ".m4a");
    assert "in/ep" + ".m4a" == e.path;
    assert Lower(".m4a") == ".m4a";
    ClassifyProcessIff(e);
    AsWrittenTypeMismatchPanics(eng, t.title);
  }
}
