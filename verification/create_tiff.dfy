/** Where the conversion task writes its pyramidal TIFF
    (utilities/tasks/large_image_tasks/tasks.py:49-74): the suffix, the
    default output name derived from the input name, the name the converter
    writes (which always ends in the suffix) and the name the file is
    renamed to afterwards.  The converter's `is_geospatial` and
    `format_hook` answers and the timestamp are inputs; the conversion and
    the file moves themselves are not modelled. */
module CreateTiff {
  import opened Wrappers
  import opened Strings

  /** A falsy string argument (`None` or empty) is treated as absent. */
  predicate Given(s: Option<string>) {
    s.Some? && s.value != ""
  }

  /** The suffix: the hook's answer, else `.tiff`, or `.geo.tiff` for a
      geospatial input. */
  function Suffix(hook: Option<string>, geospatial: bool): (r: string)
    ensures Given(hook) ==> r == hook.value
    ensures !Given(hook) ==> EndsWith(r, ".tiff") && (geospatial <==> |r| > 5)
    ensures !Given(hook) && geospatial ==> r == ".geo.tiff"
  {
    if Given(hook) then hook.value else if geospatial then ".geo.tiff" else ".tiff"
  }

  /** The input name without its extension. */
  function Stem(inputName: string): string {
    SplitExt(inputName).0
  }

  /** The name before the clash check: the stem plus the suffix, with a
      doubled `.geo` removed once. */
  function Renamed(inputName: string, suffix: string): string {
    var name := Stem(inputName) + suffix;
    if EndsWith(name, ".geo" + suffix) then name[..|name| - |suffix| - 4] + suffix else name
  }

  /** The default output name: as above, or with the timestamp inserted
      before the suffix when that would be the input's own name. */
  function DefaultName(inputName: string, suffix: string, stamp: string): string {
    var name := Renamed(inputName, suffix);
    if name == inputName then Stem(inputName) + "." + stamp + suffix else name
  }

  /** The paths `create_tiff` uses: the file the converter writes and the file
      it is left at. */
  datatype Plan = Plan(suffix: string, written: string, final: string)

  /** The name and directory part of `create_tiff`.  `inputPath` is the
      absolute input path; `inputName`, `outputName` and `outputDir` are the
      optional arguments. */
  function Output(
    inputPath: string, inputName: Option<string>, outputName: Option<string>, outputDir: Option<string>,
    hook: Option<string>, geospatial: bool, stamp: string): (r: Plan)
    ensures EndsWith(r.written, r.suffix)
    ensures r.suffix == Suffix(hook, geospatial)
  {
    var name := inputName.GetOr(Basename(inputPath));
    var suffix := Suffix(hook, geospatial);
    var requested := if Given(outputName) then outputName.value else DefaultName(name, suffix, stamp);
    var written := if EndsWith(requested, suffix) then requested else requested + suffix;
    var dir := if Given(outputDir) then outputDir.value else Dirname(inputPath);
    var path := Join(dir, written);
    Plan(suffix, path, if requested != written then Join(dir, requested) else path)
  }

  /** Dropping the `.geo` happens exactly when the stem already ends in
      `.geo`, and then removes that ending of the stem. */
  lemma RenamedDropsGeoStem(inputName: string, suffix: string)
    ensures var stem := Stem(inputName);
            Renamed(inputName, suffix)
            == (if EndsWith(stem, ".geo") then stem[..|stem| - 4] else stem) + suffix
  {
    var stem := Stem(inputName);
    var name := stem + suffix;
    if EndsWith(stem, ".geo") {
      assert name[|name| - |suffix| - 4..] == stem[|stem| - 4..] + suffix;
      assert EndsWith(name, ".geo" + suffix);
      assert name[..|name| - |suffix| - 4] == stem[..|stem| - 4];
    } else {
      assert !EndsWith(name, ".geo" + suffix) by {
        if |name| >= 4 + |suffix| {
          assert name[|name| - |suffix| - 4..] == name[|name| - |suffix| - 4..|stem|] + suffix;
          assert name[|name| - |suffix| - 4..|stem|] == stem[|stem| - 4..];
        }
      }
    }
  }

  /** The default name always ends with the suffix and is never the input
      name, so the output does not overwrite the input. */
  lemma DefaultNameFresh(inputName: string, suffix: string, stamp: string)
    ensures EndsWith(DefaultName(inputName, suffix, stamp), suffix)
    ensures DefaultName(inputName, suffix, stamp) != inputName
  {
    var stem := Stem(inputName);
    RenamedDropsGeoStem(inputName, suffix);
    var name := Renamed(inputName, suffix);
    if name == inputName {
      assert |name| <= |stem| + |suffix|;
    }
  }

  /** Without an output name the converter writes the default name and
      nothing is renamed. */
  lemma DefaultNotRenamed(
    inputPath: string, inputName: Option<string>, outputDir: Option<string>,
    hook: Option<string>, geospatial: bool, stamp: string)
    ensures var r := Output(inputPath, inputName, None, outputDir, hook, geospatial, stamp);
            var dir := if Given(outputDir) then outputDir.value else Dirname(inputPath);
            var name := inputName.GetOr(Basename(inputPath));
            r.final == r.written == Join(dir, DefaultName(name, r.suffix, stamp))
  {
    var name := inputName.GetOr(Basename(inputPath));
    DefaultNameFresh(name, Suffix(hook, geospatial), stamp);
  }

  /** A requested name is where the file ends up; the converter writes it
      with the suffix appended when it lacks one. */
  lemma RequestedNameKept(
    inputPath: string, inputName: Option<string>, outputName: string, outputDir: Option<string>,
    hook: Option<string>, geospatial: bool, stamp: string)
    requires outputName != ""
    ensures var r := Output(inputPath, inputName, Some(outputName), outputDir, hook, geospatial, stamp);
            var dir := if Given(outputDir) then outputDir.value else Dirname(inputPath);
            && r.final == Join(dir, outputName)
            && r.written == Join(dir, if EndsWith(outputName, r.suffix) then outputName else outputName + r.suffix)
  {
  }
}
