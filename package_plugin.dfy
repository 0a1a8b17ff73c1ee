/**
 * The converter plugin that finds the project's package.json and readme and
 * copies what it found onto the project: the readme summary, the package
 * name, a default project name and, when asked for, the package version.
 */
module PackagePlugin {
  import opened Common
  import opened Comments

  /** The project name used when neither the options nor package.json give one. */
  const DEFAULT_NAME: string := "Documentation"

  /** The two fields of package.json the plugin reads. */
  datatype PackageJson = PackageJson(name: string, version: Option<string>)

  /**
   * What file discovery answers during one conversion, taken as given:
   * the content of the package.json found from the root directory, what
   * reading a path yields (None when reading throws), and the readme found
   * by searching upwards from the root directory, as (file, content).
   */
  datatype Discovery = Discovery(
    packageJson: Option<PackageJson>,
    readFile: string -> Option<string>,
    readmeInParentDir: Option<(string, string)>)

  /** The fields of the project reflection that the plugin sets. */
  class ProjectReflection {
    var name: string
    var readme: Option<seq<CommentDisplayPart>>
    var packageName: Option<string>
    var packageVersion: Option<string>

    constructor (name: string)
      ensures this.name == name
      ensures readme == None && packageName == None && packageVersion == None
    {
      this.name := name;
      readme := None;
      packageName := None;
      packageVersion := None;
    }
  }

  /** `version.replace(/^v/, "")`: at most one leading "v" is removed. */
  function StripLeadingV(version: string): (r: string)
    ensures version == r || version == "v" + r
    ensures r == version <==> (version == "" || version[0] != 'v')
  {
    if |version| > 0 && version[0] == 'v' then version[1..] else version
  }

  /** `packageJson.version?.replace(/^v/, "")`. */
  function PackageVersion(pkg: PackageJson): (r: Option<string>)
    ensures r.Some? <==> pkg.version.Some?
    ensures r.Some? ==> r.value == StripLeadingV(pkg.version.value)
  {
    match pkg.version
    case Some(v) => Some(StripLeadingV(v))
    case None => None
  }

  /**
   * The project name after `addEntries`: a name already set is kept;
   * otherwise the package name when there is a non-empty one; otherwise
   * "Documentation".
   */
  function ProjectName(name: string, packageJson: Option<PackageJson>): (r: string)
    ensures r != ""
    ensures name != "" ==> r == name
    ensures r == name || r == DEFAULT_NAME || (packageJson.Some? && r == packageJson.value.name)
    ensures name == "" && packageJson.Some? && packageJson.value.name != "" ==> r == packageJson.value.name
  {
    if name != "" then name
    else if packageJson.Some? && packageJson.value.name != "" then packageJson.value.name
    else DEFAULT_NAME
  }

  /**
   * The readme file and contents `onBegin` leaves, given the `readme`
   * option: none when it ends in "none"; the provided path and its contents
   * when one is given and can be read; otherwise what the upward search
   * found.
   */
  function DiscoveredReadme(readme: string, discovery: Discovery): (r: (Option<string>, Option<string>))
    ensures EndsWith(readme, "none") ==> r == (None, None)
    ensures r.0.Some? <==> r.1.Some?
    ensures readme != "" && !EndsWith(readme, "none") ==>
              r == (match discovery.readFile(readme)
                    case Some(contents) => (Some(readme), Some(contents))
                    case None => (None, None))
    ensures readme == "" ==> r == (match discovery.readmeInParentDir
                                   case Some(found) => (Some(found.0), Some(found.1))
                                   case None => (None, None))
  {
    if EndsWith(readme, "none") then (None, None)
    else if readme != "" then
      match discovery.readFile(readme)
      case Some(contents) => (Some(readme), Some(contents))
      case None => (None, None)
    else
      match discovery.readmeInParentDir
      case Some(found) => (Some(found.0), Some(found.1))
      case None => (None, None)
  }

  /**
   * The `readme` option arrives resolved to a path, so "none" is recognised
   * as the last four characters of whatever path it was resolved against.
   */
  lemma ResolvedNoneFindsNoReadme(dir: string, discovery: Discovery)
    ensures DiscoveredReadme(dir + "none", discovery) == (None, None)
  {
    EndsWithConcat(dir, "none");
  }

  class PackagePlugin {
    /** The `readme` option, already resolved to a path. */
    const readme: string
    /** The `includeVersion` option. */
    const includeVersion: bool

    /** The file name of the readme found, if any. */
    var readmeFile: Option<string>
    /** The contents of the readme found, if any. */
    var readmeContents: Option<string>
    /** The package.json of the active project, if any. */
    var packageJson: Option<PackageJson>

    constructor (readme: string, includeVersion: bool)
      ensures this.readme == readme && this.includeVersion == includeVersion
      ensures readmeFile == None && readmeContents == None && packageJson == None
    {
      this.readme := readme;
      this.includeVersion := includeVersion;
      readmeFile := None;
      readmeContents := None;
      packageJson := None;
    }

    /** The `ConverterEvents.END` handler: forgets what was found. */
    method OnEnd()
      modifies this
      ensures readmeFile == None && readmeContents == None && packageJson == None
    {
      readmeFile := None;
      readmeContents := None;
      packageJson := None;
    }

    /** `onBegin`: resets the cached fields, then looks for package.json and the readme. */
    method OnBegin(discovery: Discovery)
      modifies this
      ensures packageJson == discovery.packageJson
      ensures (readmeFile, readmeContents) == DiscoveredReadme(readme, discovery)
    {
      readmeFile := None;
      readmeContents := None;
      packageJson := None;

      packageJson := discovery.packageJson;

      if EndsWith(readme, "none") {
        return;
      }

      if readme != "" {
        // a readme path was provided: read only that file
        var contents := discovery.readFile(readme);
        if contents.Some? {
          readmeContents := contents;
          readmeFile := Some(readme);
        }
      } else {
        var result := discovery.readmeInParentDir;
        if result.Some? {
          readmeFile := Some(result.value.0);
          readmeContents := Some(result.value.1);
        }
      }
    }

    /**
     * `addEntries`: copies the readme summary and the package data onto the
     * project. `parseRawComment` maps (contents, file name) to the parsed
     * comment.
     */
    method AddEntries(project: ProjectReflection, parseRawComment: (string, string) -> Comment)
      modifies project
      ensures project.readme ==
                if Truthy(readmeFile) && Truthy(readmeContents)
                then Some(parseRawComment(readmeContents.value, readmeFile.value).summary)
                else old(project.readme)
      ensures project.packageName ==
                if packageJson.Some? then Some(packageJson.value.name) else old(project.packageName)
      ensures project.name == ProjectName(old(project.name), packageJson)
      ensures project.packageVersion ==
                if packageJson.Some? && includeVersion then PackageVersion(packageJson.value)
                else old(project.packageVersion)
    {
      if Truthy(readmeFile) && Truthy(readmeContents) {
        var comment := parseRawComment(readmeContents.value, readmeFile.value);
        project.readme := Some(comment.summary);
      }

      if packageJson.Some? {
        project.packageName := Some(packageJson.value.name);
        if project.name == "" {
          project.name := if project.packageName.value != "" then project.packageName.value else DEFAULT_NAME;
        }
        if includeVersion {
          project.packageVersion := PackageVersion(packageJson.value);
        }
      } else if project.name == "" {
        project.name := DEFAULT_NAME;
      }
    }

    /** `onRevive`: runs the begin search and `addEntries` on a revived project, then forgets what was found. */
    method OnRevive(project: ProjectReflection, discovery: Discovery, parseRawComment: (string, string) -> Comment)
      modifies this, project
      ensures readmeFile == None && readmeContents == None && packageJson == None
      ensures var (file, contents) := DiscoveredReadme(readme, discovery);
        project.readme ==
          if Truthy(file) && Truthy(contents)
          then Some(parseRawComment(contents.value, file.value).summary)
          else old(project.readme)
      ensures project.packageName ==
                if discovery.packageJson.Some? then Some(discovery.packageJson.value.name)
                else old(project.packageName)
      ensures project.name == ProjectName(old(project.name), discovery.packageJson)
      ensures project.packageVersion ==
                if discovery.packageJson.Some? && includeVersion then PackageVersion(discovery.packageJson.value)
                else old(project.packageVersion)
    {
      OnBegin(discovery);
      AddEntries(project, parseRawComment);
      readmeFile := None;
      packageJson := None;
      readmeContents := None;
    }
  }
}
