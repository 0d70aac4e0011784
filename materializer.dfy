/** The project materializer's logic: the template file rename, the
    rejection of an empty class selection, and the `menu.json` contents.
    Directory creation, file copying and writing are left to the caller. */
module Materializer {
  import opened Wrappers
  import JsString
  import Selector

  /** `templateFile.replace('_gitignore', '.gitignore')`: only the first
      `_gitignore` is renamed, and a name without one is kept. */
  function TemplateFileName(templateFile: string): (r: string)
    ensures (forall j: nat :: !JsString.OccursAt(templateFile, "_gitignore", j)) ==> r == templateFile
    ensures forall i: nat :: JsString.FirstOccurrence(templateFile, "_gitignore", i) ==>
      r == templateFile[..i] + ".gitignore" + templateFile[i + 10..]
    ensures |r| == |templateFile|
  {
    JsString.ReplaceFirst(templateFile, "_gitignore", ".gitignore")
  }

  /** The placeholder itself becomes the dotfile. */
  lemma TemplateFileNameGitignore()
    ensures TemplateFileName("_gitignore") == ".gitignore"
  {
    assert JsString.FirstOccurrence("_gitignore", "_gitignore", 0);
  }

  /** A `menu.json` entry for one selected class. */
  datatype MenuEntry = MenuEntry(name: string, status: string, display: bool)

  /** `menu.json`: schema base name to class name to entry. */
  type Menu = map<string, map<string, MenuEntry>>

  /** `classes.reduce((prev, curr) => ({...prev, [curr]: entry}), {})`: the
      entry of each selected class, a later one overwriting an earlier one
      with the same key. */
  function MenuEntries(classes: seq<string>): (r: map<string, MenuEntry>)
    ensures r.Keys == set c | c in classes
    ensures forall c :: c in r ==> r[c] == MenuEntry(c, "published", true)
  {
    if classes == [] then map[]
    else
      var curr := classes[|classes| - 1];
      var prev := classes[..|classes| - 1];
      assert classes == prev + [curr];
      MenuEntries(prev)[curr := MenuEntry(curr, "published", true)]
  }

  /** The menu depends only on which classes were selected, not on their
      order or repetitions. */
  lemma MenuEntriesBySet(a: seq<string>, b: seq<string>)
    requires (set c | c in a) == (set c | c in b)
    ensures MenuEntries(a) == MenuEntries(b)
  {
  }

  /** The menu object: a single key, the schema's base name. */
  function MenuJson(schemaName: string, classes: seq<string>): (menu: Menu)
    ensures menu.Keys == {schemaName}
    ensures menu[schemaName] == map c | c in classes :: MenuEntry(c, "published", true)
  {
    map[schemaName := MenuEntries(classes)]
  }

  /** What the prompt returns. */
  datatype Answers = Answers(projectName: string, classes: seq<string>)

  /** A template file and the name it is copied under. */
  datatype CopyStep = CopyStep(source: string, target: string)

  /** What a run generates once the answers are in: the directory name,
      the template copies, and the menu. */
  datatype Project = Project(projectName: string, copies: seq<CopyStep>, menu: Menu)

  const NO_CLASSES_SELECTED: string := "No classes selected. Project will not be generated"

  /** The template files, in directory order, each with its target name. */
  function CopySteps(templateFiles: seq<string>): (r: seq<CopyStep>)
    ensures |r| == |templateFiles|
    ensures forall i :: 0 <= i < |r| ==> r[i].source == templateFiles[i]
    ensures forall i :: 0 <= i < |r| ==> r[i].target == TemplateFileName(r[i].source)
    ensures forall i :: 0 <= i < |r| ==> |r[i].target| == |r[i].source|
    ensures forall i :: 0 <= i < |r| && (forall j: nat :: !JsString.OccursAt(r[i].source, "_gitignore", j)) ==>
      r[i].target == r[i].source
  {
    seq(|templateFiles|, i requires 0 <= i < |templateFiles| => CopyStep(templateFiles[i], TemplateFileName(templateFiles[i])))
  }

  /** The steps of `run` after the prompt: an empty selection stops the run
      with its message before anything is generated. */
  function Generate(answers: Answers, schemaName: string, templateFiles: seq<string>): (r: Result<Project, string>)
    ensures r.Failure? <==> |answers.classes| == 0
    ensures r.Failure? ==> r.error == NO_CLASSES_SELECTED
    ensures r.Success? ==> r.value.projectName == answers.projectName
    ensures r.Success? ==> r.value.copies == CopySteps(templateFiles)
    ensures r.Success? ==> r.value.menu == MenuJson(schemaName, answers.classes)
    ensures r.Success? ==> r.value.menu.Keys == {schemaName}
    ensures r.Success? ==> r.value.menu[schemaName].Keys == set c | c in answers.classes
  {
    if |answers.classes| == 0 then Failure(NO_CLASSES_SELECTED)
    else Success(Project(answers.projectName, CopySteps(templateFiles), MenuJson(schemaName, answers.classes)))
  }

  /** When the selection is drawn from the offered choices, the marker class
      never gets a menu entry. */
  lemma MenuOmitsMarker(classNames: seq<string>, ancestors: string -> seq<string>, answers: Answers,
                        schemaName: string, templateFiles: seq<string>)
    requires forall c :: c in answers.classes ==>
      exists i :: 0 <= i < |Selector.Choices(classNames, ancestors)| && Selector.Choices(classNames, ancestors)[i].name == c
    requires Generate(answers, schemaName, templateFiles).Success?
    ensures Selector.DH_INTERFACE !in Generate(answers, schemaName, templateFiles).value.menu[schemaName]
  {
  }
}
