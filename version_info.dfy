/** Document identity of the stored `VersionInfo` entity. */
module VersionInfoEntity {
  import opened Entities

  /** `nameof(VersionInfo)`. */
  const TypeName: string := "VersionInfo"

  /** `$"{nameof(VersionInfo)}-{gameName}"`: C# interpolation renders a null
      game name as the empty string. */
  function GenerateId(gameName: Option<string>): (id: string)
    ensures |id| >= |TypeName| + 1
    ensures id[..|TypeName|] == TypeName && id[|TypeName|] == '-'
    ensures id[|TypeName| + 1..] == (if gameName.Some? then gameName.value else "")
  {
    TypeName + "-" + (match gameName case Some(g) => g case None => "")
  }

  /** The id has the fixed 12-character prefix "VersionInfo-" and is 12
      characters longer than the game name. */
  lemma GenerateIdShape(gameName: string)
    ensures GenerateId(Some(gameName))[..12] == "VersionInfo-"
    ensures |GenerateId(Some(gameName))| == |gameName| + 12
  {
  }

  /** Distinct non-null game names get distinct ids. */
  lemma GenerateIdInjective(a: string, b: string)
    ensures GenerateId(Some(a)) == GenerateId(Some(b)) ==> a == b
  {
  }

  /** A null game name and the empty game name share one id. */
  lemma GenerateIdNullCollidesWithEmpty()
    ensures GenerateId(None) == GenerateId(Some(""))
    ensures GenerateId(None) == "VersionInfo-"
  {
  }

  /** The identity part of a `VersionInfo` document; the remaining fields of
      the data contract are not read by `id` or `DocumentType`. */
  datatype VersionInfo = VersionInfo(appName: Option<string>) {

    /** The `id` property: the document id derived from the application name. */
    function Id(): (id: string)
      ensures id == GenerateId(appName)
      ensures |id| > |TypeName| && id[..|TypeName| + 1] == DocumentType() + "-"
    {
      GenerateId(appName)
    }

    /** The `DocumentType` property: always the entity's type name. */
    function DocumentType(): (t: string)
      ensures t == "VersionInfo"
    {
      TypeName
    }
  }

  /** Two version documents share an id exactly when they describe the same
      application (null and empty names aside). */
  lemma IdDeterminesAppName(v: VersionInfo, w: VersionInfo)
    requires v.appName.Some? && w.appName.Some?
    ensures v.Id() == w.Id() <==> v.appName == w.appName
  {
    GenerateIdInjective(v.appName.value, w.appName.value);
  }
}
