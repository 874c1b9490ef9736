/**
 * `MavenDependencyInsertionHandler`: when the user picks an artifact from
 * Maven dependency completion inside a pom, the handler finds the artifact
 * coordinates element being edited (`<dependency>`, `<plugin>`, ...) and
 * fills in its groupId, artifactId, scope and version, re-invoking
 * completion at the artifactId or the version when the item leaves them
 * open.
 *
 * The XML tags and their DOM elements are objects: a tag has a name, a
 * parent, the coordinates element the DOM manager binds to it (null when the
 * DOM element there is not artifact coordinates) and its value text, which
 * the handler may clear. The scope table and the managed-dependency lookup
 * are inputs, and the caret move plus `invokeCompletion` become a returned
 * `CompletionRequest`.
 */
module MavenCompletion {
  import opened Wrappers

  /** `MavenRepositoryArtifactInfo` as the handler reads it; `items` is the length of `getItems()`, None when it is null. */
  datatype ArtifactInfo = ArtifactInfo(groupId: Option<string>, artifactId: Option<string>, version: Option<string>, items: Option<nat>)

  /** The object behind the chosen lookup element. */
  datatype LookupObject = RepositoryArtifact(info: ArtifactInfo) | OtherObject

  /** Where completion is invoked again after the insertion, if anywhere. */
  datatype CompletionRequest = NoCompletion | AtArtifactId | AtVersion

  class XmlTag {
    const name: string
    const parentTag: XmlTag?
    const domCoordinates: ArtifactCoordinates?
    var text: string

    constructor (name: string, parentTag: XmlTag?, domCoordinates: ArtifactCoordinates?, text: string)
      ensures this.name == name && this.parentTag == parentTag && this.domCoordinates == domCoordinates && this.text == text
    {
      this.name := name;
      this.parentTag := parentTag;
      this.domCoordinates := domCoordinates;
      this.text := text;
    }
  }

  /** `MavenDomArtifactCoordinates`; `isDependency` when it is a `MavenDomDependency`, the only kind with a scope. A None field has no value. */
  class ArtifactCoordinates {
    const xmlTag: XmlTag?
    const isDependency: bool
    var groupId: Option<string>
    var artifactId: Option<string>
    var version: Option<string>
    var scope: Option<string>

    constructor (xmlTag: XmlTag?, isDependency: bool)
      ensures this.xmlTag == xmlTag && this.isDependency == isDependency
      ensures groupId.None? && artifactId.None? && version.None? && scope.None?
    {
      this.xmlTag := xmlTag;
      this.isDependency := isDependency;
      groupId, artifactId, version, scope := None, None, None, None;
    }
  }

  /** The tag `n` levels above `tag`, or null when the chain of parents ends first. */
  function Ancestor(tag: XmlTag?, n: nat): XmlTag? {
    if n == 0 || tag == null then tag else Ancestor(tag.parentTag, n - 1)
  }

  /** `checkIsInsideManagedDependencies`: the coordinates' tag sits in `<dependencyManagement><dependencies>`. */
  function CheckIsInsideManagedDependencies(coordinates: ArtifactCoordinates): (inside: bool)
    ensures inside <==> Ancestor(coordinates.xmlTag, 2) != null && Ancestor(coordinates.xmlTag, 2).name == "dependencyManagement"
  {
    var tag := coordinates.xmlTag;
    var dependencies := if tag == null then null else tag.parentTag;
    var dependencyManagement := if dependencies == null then null else dependencies.parentTag;
    assert dependencies == Ancestor(tag, 1) && dependencyManagement == Ancestor(tag, 2) by {
      if tag != null && dependencies != null {
        assert Ancestor(tag, 2) == Ancestor(dependencies, 1) == Ancestor(dependencyManagement, 0);
      }
    }
    dependencyManagement != null && dependencyManagement.name == "dependencyManagement"
  }

  // ---------------------------------------------------------------------
  // The decision of setDependency
  // ---------------------------------------------------------------------

  /** What `setDependency` consults besides the item. */
  datatype Surroundings = Surroundings(
    isDependency: bool,
    usualScope: Option<string>,
    hasManagedDependency: bool,
    insideManagedDependencies: bool)

  /** The `setStringValue` calls of one `setDependency`, field by field (None: not written), and the completion it requests. */
  datatype Edits = Edits(
    groupId: Option<string>,
    artifactId: Option<string>,
    scope: Option<string>,
    version: Option<string>,
    completion: CompletionRequest)

  const NoEdits := Edits(None, None, None, None, NoCompletion)

  function PlanDependency(item: ArtifactInfo, env: Surroundings): Edits {
    if item.groupId.None? then NoEdits
    else if item.artifactId.None? then Edits(item.groupId, Some(""), None, None, AtArtifactId)
    else
      var scope := if env.isDependency then env.usualScope else None;
      if env.hasManagedDependency && !env.insideManagedDependencies then
        Edits(item.groupId, item.artifactId, scope, None, NoCompletion)
      else if item.items == Some(1) && item.version.Some? then
        Edits(item.groupId, item.artifactId, scope, item.version, NoCompletion)
      else
        Edits(item.groupId, item.artifactId, scope, Some(""), AtVersion)
  }

  /** Without a groupId nothing is written and completion is not re-invoked; with one, the groupId is always written. */
  lemma PlanNeedsGroupId(item: ArtifactInfo, env: Surroundings)
    ensures item.groupId.None? <==> PlanDependency(item, env) == NoEdits
    ensures item.groupId.Some? ==> PlanDependency(item, env).groupId == item.groupId
  {
  }

  /** Without an artifactId the artifactId is emptied and completed again, and neither scope nor version is touched. */
  lemma PlanMissingArtifactId(item: ArtifactInfo, env: Surroundings)
    requires item.groupId.Some? && item.artifactId.None?
    ensures var e := PlanDependency(item, env);
      && e.artifactId == Some("") && e.completion == AtArtifactId
      && e.scope.None? && e.version.None?
  {
  }

  /** The scope is written exactly for a dependency whose usual scope is known, once both ids are known. */
  lemma PlanScope(item: ArtifactInfo, env: Surroundings)
    ensures var e := PlanDependency(item, env);
      && (e.scope.Some? <==> item.groupId.Some? && item.artifactId.Some? && env.isDependency && env.usualScope.Some?)
      && (e.scope.Some? ==> e.scope == env.usualScope)
  {
  }

  /**
   * The version: untouched when a managed dependency exists outside
   * `dependencyManagement`; otherwise the item's version when the item is the
   * only one and has a version, and empty with completion at the version in
   * every other case.
   */
  lemma PlanVersion(item: ArtifactInfo, env: Surroundings)
    requires item.groupId.Some? && item.artifactId.Some?
    ensures var e := PlanDependency(item, env);
      && (env.hasManagedDependency && !env.insideManagedDependencies ==> e.version.None? && e.completion == NoCompletion)
      && (!(env.hasManagedDependency && !env.insideManagedDependencies) ==>
            && (e.version == item.version && e.completion == NoCompletion <==> item.items == Some(1) && item.version.Some?)
            && (e.version == Some("") && e.completion == AtVersion <==> !(item.items == Some(1) && item.version.Some?)))
  {
  }

  /**
   * Fields are filled in source order (groupId, artifactId, scope, version)
   * with the item's own values, and completion is re-invoked only at a field
   * that was just emptied, the last one written.
   */
  lemma PlanShape(item: ArtifactInfo, env: Surroundings)
    ensures var e := PlanDependency(item, env);
      && (e.artifactId.Some? ==> e.groupId.Some? && e.groupId == item.groupId)
      && (e.scope.Some? || e.version.Some? ==> e.artifactId.Some? && e.artifactId == item.artifactId)
      && (e.completion == AtArtifactId ==> e.artifactId == Some("") && e.scope.None? && e.version.None?)
      && (e.completion == AtVersion ==> e.version == Some(""))
      && (e.version.Some? && e.version != Some("") ==> e.version == item.version)
  {
  }

  /** The value of a field after the planned write, if any. */
  function Written(before: Option<string>, write: Option<string>): Option<string> {
    if write.Some? then write else before
  }

  // ---------------------------------------------------------------------
  // The handler
  // ---------------------------------------------------------------------

  /** `setDependency`: the `setStringValue` calls, with the early returns of the source. */
  method SetDependency(item: ArtifactInfo, coordinates: ArtifactCoordinates, usualScope: Option<string>, hasManagedDependency: bool)
    returns (completion: CompletionRequest)
    modifies coordinates
    ensures var e := PlanDependency(item, Surroundings(coordinates.isDependency, usualScope, hasManagedDependency,
                                                       CheckIsInsideManagedDependencies(coordinates)));
      && coordinates.groupId == Written(old(coordinates.groupId), e.groupId)
      && coordinates.artifactId == Written(old(coordinates.artifactId), e.artifactId)
      && coordinates.scope == Written(old(coordinates.scope), e.scope)
      && coordinates.version == Written(old(coordinates.version), e.version)
      && completion == e.completion
  {
    completion := NoCompletion;
    if item.groupId.None? {
      return;
    }
    coordinates.groupId := item.groupId;
    if item.artifactId.None? {
      coordinates.artifactId := Some("");
      completion := AtArtifactId;
      return;
    }
    coordinates.artifactId := item.artifactId;
    if coordinates.isDependency {
      if usualScope.Some? {
        coordinates.scope := usualScope;
      }
    }
    var isEditingManagedDependencies := CheckIsInsideManagedDependencies(coordinates);
    if hasManagedDependency && !isEditingManagedDependencies {
      return;
    }
    if item.items == Some(1) && item.version.Some? {
      coordinates.version := item.version;
    } else {
      coordinates.version := Some("");
      completion := AtVersion;
    }
  }

  /** The coordinates element bound to `tag`, or else to its parent; null when neither is one. */
  function CoordinatesFor(tag: XmlTag): ArtifactCoordinates? {
    if tag.domCoordinates != null then tag.domCoordinates
    else if tag.parentTag == null then null
    else tag.parentTag.domCoordinates
  }

  /** `getDomCoordinatesFromCurrentTag`: the tag's own coordinates, clearing its text, or else its parent's, left as they are. */
  method GetDomCoordinatesFromCurrentTag(tag: XmlTag) returns (coordinates: ArtifactCoordinates?)
    modifies if tag.domCoordinates != null then {tag} else {}
    ensures coordinates == CoordinatesFor(tag)
    ensures tag.text == if tag.domCoordinates != null then "" else old(tag.text)
  {
    if tag.domCoordinates != null {
      tag.text := "";
      return tag.domCoordinates;
    }
    if tag.parentTag == null {
      return null;
    }
    return tag.parentTag.domCoordinates;
  }

  /** The objects one insertion may change. */
  function Affected(tag: XmlTag?): set<object> {
    if tag == null then {}
    else
      var c := CoordinatesFor(tag);
      {tag} + (if c == null then {} else {c})
  }

  /**
   * `handleInsert`: nothing happens unless the chosen object is a
   * repository artifact, the file is XML, the caret is inside a tag and
   * coordinates are found there; then `setDependency` does the rest.
   */
  method HandleInsert(chosen: LookupObject, isXmlFile: bool, tag: XmlTag?, usualScope: Option<string>, hasManagedDependency: bool)
    returns (completion: CompletionRequest)
    modifies Affected(tag)
    ensures chosen.OtherObject? || !isXmlFile || tag == null ==> completion == NoCompletion && unchanged(Affected(tag))
    ensures chosen.RepositoryArtifact? && isXmlFile && tag != null && CoordinatesFor(tag) == null ==>
      completion == NoCompletion && unchanged(Affected(tag))
    ensures chosen.RepositoryArtifact? && isXmlFile && tag != null && CoordinatesFor(tag) != null ==>
      var c := CoordinatesFor(tag);
      var e := PlanDependency(chosen.info, Surroundings(c.isDependency, usualScope, hasManagedDependency,
                                                        CheckIsInsideManagedDependencies(c)));
      && tag.text == (if tag.domCoordinates != null then "" else old(tag.text))
      && c.groupId == Written(old(c.groupId), e.groupId)
      && c.artifactId == Written(old(c.artifactId), e.artifactId)
      && c.scope == Written(old(c.scope), e.scope)
      && c.version == Written(old(c.version), e.version)
      && completion == e.completion
  {
    completion := NoCompletion;
    if chosen.OtherObject? {
      return;
    }
    var completionItem := chosen.info;
    if !isXmlFile {
      return;
    }
    if tag == null {
      return;
    }
    var domCoordinates := GetDomCoordinatesFromCurrentTag(tag);
    if domCoordinates == null {
      assert Affected(tag) == {tag};
      return;
    }
    completion := SetDependency(completionItem, domCoordinates, usualScope, hasManagedDependency);
  }
}
