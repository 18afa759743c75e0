/**
 * Rows of the hosted database as the pages receive them, and the enums the
 * database declares for them. Only the columns the modelled code reads are
 * kept.
 */
module Schema {
  import opened Wrappers

  /** The `resource_type` enum. */
  datatype ResourceType = Pdf | Doc | Video | Link | Other

  /** The `round_type` enum. */
  datatype RoundType = Aptitude | Coding | Technical | Hr | General

  /** The `app_role` enum. */
  datatype AppRole = Admin | Mentor | Junior

  /** The text the database and the pages use for a round. */
  function RoundName(t: RoundType): (name: string)
    ensures name != "all"
  {
    match t
    case Aptitude => "aptitude"
    case Coding => "coding"
    case Technical => "technical"
    case Hr => "hr"
    case General => "general"
  }

  /** Different rounds have different names. */
  lemma RoundNameInjective(s: RoundType, t: RoundType)
    ensures RoundName(s) == RoundName(t) <==> s == t
  {
  }

  /** The staff test of the forum's `isMentorOrAdmin` and of the mentor dashboard's guard. */
  predicate IsMentorOrAdmin(userRole: Option<AppRole>)
    ensures IsMentorOrAdmin(userRole) <==> userRole.Some? && userRole.value != Junior
  {
    assert userRole.Some? ==> userRole == Some(userRole.value) && (userRole.value == Admin || userRole.value == Mentor || userRole.value == Junior);
    userRole == Some(Mentor) || userRole == Some(Admin)
  }

  /** A row of the `resources` table. */
  datatype Resource = Resource(
    id: string,
    title: string,
    folderPath: Option<string>,
    externalLink: Option<string>,
    filePath: Option<string>,
    resourceType: ResourceType,
    roundType: RoundType,
    downloadCount: Option<int>)

  /** JavaScript truthiness of a nullable string: present and not empty. */
  predicate Truthy(s: Option<string>)
  {
    s.Some? && s.value != ""
  }
}
